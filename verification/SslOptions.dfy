/**
 The client's SSL options: one step of the option switch in `sslopt-case.h`, over any sequence of
 options, and the final effect of `sslopt-vars.h`.
 */
module SslOptions {
  import opened Common

  const DISABLED := 1
  const PREFERRED := 2
  const REQUIRED := 3
  const VERIFY_CA := 4
  const VERIFY_IDENTITY := 5

  /** The five names; any other argument of --ssl-mode ends the program. */
  type Mode = m: int | 1 <= m <= 5 witness 1

  datatype Arg =
    | SslMode(mode: Mode)
    | Ssl(on: bool)
    | VerifyServerCert(on: bool)
    | Ca(file: string)
    | CaPath(dir: string)
    | Unrelated

  /** The static variables the switch and the final call depend on. */
  datatype Settings = Settings(mode: int, explicitly: bool, ca: Option<string>, capath: Option<string>)

  const DEFAULTS := Settings(PREFERRED, false, None, None)

  function Step(s: Settings, a: Arg): Settings {
    match a
    case SslMode(m) => s.(mode := m, explicitly := true)
    case Ssl(on) =>
      if !on then s.(mode := DISABLED) else if s.mode < REQUIRED then s.(mode := REQUIRED) else s
    case VerifyServerCert(on) =>
      if on then s.(mode := VERIFY_IDENTITY)
      else if s.mode >= VERIFY_IDENTITY then s.(mode := VERIFY_CA) else s
    case Ca(file) => s.(ca := Some(file), mode := if s.explicitly then s.mode else VERIFY_CA)
    case CaPath(dir) => s.(capath := Some(dir), mode := if s.explicitly then s.mode else VERIFY_CA)
    case Unrelated => s
  }

  function Parse(args: seq<Arg>): Settings {
    if args == [] then DEFAULTS else Step(Parse(args[..|args| - 1]), args[|args| - 1])
  }

  /** What `set_client_ssl_options` does: warn, and pass the CA settings on or not. */
  datatype Effect = Effect(warned: bool, passesCa: bool)

  function Final(s: Settings): Effect {
    Effect(s.explicitly && s.mode < VERIFY_CA && (s.ca.Some? || s.capath.Some?), s.mode >= VERIFY_CA)
  }

  class ClientSsl {
    var optSslMode: int
    var sslModeSetExplicitly: bool
    var optSslCa: Option<string>
    var optSslCapath: Option<string>

    ghost function View(): Settings
      reads this
    {
      Settings(optSslMode, sslModeSetExplicitly, optSslCa, optSslCapath)
    }

    constructor ()
      ensures View() == DEFAULTS
    {
      optSslMode, sslModeSetExplicitly, optSslCa, optSslCapath := PREFERRED, false, None, None;
    }

    /** The option parser has stored the argument; the switch then adjusts the mode. */
    method HandleOption(a: Arg)
      modifies this
      ensures View() == Step(old(View()), a)
    {
      match a {
        case SslMode(m) =>
          optSslMode := m;
          sslModeSetExplicitly := true;
        case Ssl(on) =>
          if !on {
            optSslMode := DISABLED;
          } else if optSslMode < REQUIRED {
            optSslMode := REQUIRED;
          }
        case VerifyServerCert(on) =>
          if !on {
            if optSslMode >= VERIFY_IDENTITY {
              optSslMode := VERIFY_CA;
            }
          } else {
            optSslMode := VERIFY_IDENTITY;
          }
        case Ca(file) =>
          optSslCa := Some(file);
          if !sslModeSetExplicitly {
            optSslMode := VERIFY_CA;
          }
        case CaPath(dir) =>
          optSslCapath := Some(dir);
          if !sslModeSetExplicitly {
            optSslMode := VERIFY_CA;
          }
        case Unrelated =>
      }
    }

    method HandleOptions(args: seq<Arg>)
      requires View() == DEFAULTS
      modifies this
      ensures View() == Parse(args)
    {
      for i := 0 to |args|
        invariant View() == Parse(args[..i])
      {
        assert args[..i + 1][..i] == args[..i];
        HandleOption(args[i]);
      }
      assert args[..|args|] == args;
    }

    /** `set_client_ssl_options`: the CA arguments handed to `mysql_ssl_set`, and whether it warned. */
    method SetClientSslOptions() returns (warned: bool, ca: Option<string>, capath: Option<string>)
      ensures warned <==> sslModeSetExplicitly && optSslMode < 4 && (optSslCa.Some? || optSslCapath.Some?)
      ensures optSslMode >= 4 ==> ca == optSslCa && capath == optSslCapath
      ensures optSslMode < 4 ==> ca == None && capath == None
      ensures warned == Final(View()).warned
      ensures ca == (if Final(View()).passesCa then optSslCa else None)
      ensures capath == (if Final(View()).passesCa then optSslCapath else None)
    {
      warned := sslModeSetExplicitly && optSslMode < VERIFY_CA && (optSslCa.Some? || optSslCapath.Some?);
      if optSslMode >= VERIFY_CA {
        ca, capath := optSslCa, optSslCapath;
      } else {
        ca, capath := None, None;
      }
    }
  }

  // ---------------------------------------------------------------- what each setting ends up as

  /** The final CA file is the argument of the last --ssl-ca; there is none if that was never given. */
  lemma {:induction false} CaIsTheLastGiven(args: seq<Arg>, i: nat)
    requires i <= |args| && forall j :: i < j < |args| ==> !args[j].Ca?
    requires i < |args| ==> args[i].Ca?
    ensures i < |args| ==> Parse(args).ca == Some(args[i].file)
    ensures i == |args| && (forall j :: 0 <= j < |args| ==> !args[j].Ca?) ==> Parse(args).ca == None
  {
    if args != [] {
      var n := |args| - 1;
      CaIsTheLastGiven(args[..n], if i < n then i else n);
    }
  }

  /** The final CA path is the argument of the last --ssl-capath; there is none if that was never given. */
  lemma {:induction false} CaPathIsTheLastGiven(args: seq<Arg>, i: nat)
    requires i <= |args| && forall j :: i < j < |args| ==> !args[j].CaPath?
    requires i < |args| ==> args[i].CaPath?
    ensures i < |args| ==> Parse(args).capath == Some(args[i].dir)
    ensures i == |args| && (forall j :: 0 <= j < |args| ==> !args[j].CaPath?) ==> Parse(args).capath == None
  {
    if args != [] {
      var n := |args| - 1;
      CaPathIsTheLastGiven(args[..n], if i < n then i else n);
    }
  }

  /** Some --ssl-mode comes before place `i`. */
  ghost predicate ModeNamedBefore(args: seq<Arg>, i: nat)
    requires i <= |args|
  {
    exists k :: 0 <= k < i && args[k].SslMode?
  }

  /** An option that leaves the mode alone: an unrelated one, or a CA option once --ssl-mode was used. */
  ghost predicate LeavesMode(args: seq<Arg>, i: nat)
    requires i < |args|
  {
    args[i].Unrelated? || ((args[i].Ca? || args[i].CaPath?) && ModeNamedBefore(args, i))
  }

  /**
   The mode is decided by the last option that does not leave it alone: --ssl-mode names it, --ssl=0 disables,
   --ssl=1 asks for REQUIRED at least, --ssl-verify-server-cert for VERIFY_IDENTITY, its negation for
   VERIFY_CA at most, and a CA option without --ssl-mode for VERIFY_CA. Without any it is PREFERRED.
   */
  lemma {:induction false} ModeIsDecidedByTheLast(args: seq<Arg>, i: nat)
    requires i <= |args| && (i < |args| ==> !LeavesMode(args, i))
    requires forall j :: i < j < |args| ==> LeavesMode(args, j)
    ensures i < |args| ==>
              var before := Parse(args[..i]).mode;
              Parse(args).mode == match args[i] {
                case SslMode(m) => m
                case Ssl(on) => if !on then 1 else if before < 3 then 3 else before
                case VerifyServerCert(on) => if on then 5 else if before > 4 then 4 else before
                case _ => 4
              }
    ensures i == |args| && (forall j :: 0 <= j < |args| ==> LeavesMode(args, j)) ==> Parse(args).mode == 2
  {
    if args != [] {
      var n := |args| - 1;
      WhatParseRemembers(args[..n]);
      NamedInPrefix(args, n);
      forall j | 0 <= j < n ensures LeavesMode(args[..n], j) <==> LeavesMode(args, j) {
        NamedInPrefix(args, j);
        NamedInPrefix(args[..n], j);
        assert args[..n][..j] == args[..j];
      }
      if i < n {
        ModeIsDecidedByTheLast(args[..n], i);
        assert args[..n][..i] == args[..i];
        assert LeavesMode(args, n);
        assert Parse(args).mode == Parse(args[..n]).mode;
      } else if i > n && LeavesMode(args, n) && forall j :: 0 <= j < n ==> LeavesMode(args, j) {
        ModeIsDecidedByTheLast(args[..n], n);
      }
    }
  }

  lemma {:induction false} NamedInPrefix(args: seq<Arg>, i: nat)
    requires i <= |args|
    ensures ModeNamedBefore(args, i) <==> Explicit(args[..i])
  {
    if k :| 0 <= k < i && args[k].SslMode? {
      assert args[..i][k].SslMode?;
    }
    if k :| 0 <= k < i && args[..i][k].SslMode? {
      assert args[k].SslMode?;
    }
  }

  /** From the options to the effect: when it warns, and when the CA settings are passed on. */
  lemma {:induction false} EffectOfOptions(args: seq<Arg>)
    ensures Final(Parse(args)).warned
            <==> (exists i :: 0 <= i < |args| && args[i].SslMode?)
                 && (exists i :: 0 <= i < |args| && (args[i].Ca? || args[i].CaPath?)) && Parse(args).mode < 4
    ensures Final(Parse(args)).passesCa <==> Parse(args).mode >= 4
  {
    WhatParseRemembers(args);
    assert Given(args) <==> exists i :: 0 <= i < |args| && (args[i].Ca? || args[i].CaPath?) by {
      if i :| 0 <= i < |args| && (args[i].Ca? || args[i].CaPath?) {
        assert GivesCa(args[i]);
      }
      if i :| 0 <= i < |args| && GivesCa(args[i]) {
        assert args[i].Ca? || args[i].CaPath?;
      }
    }
  }

  // ---------------------------------------------------------------- properties of every option sequence

  lemma {:induction false} ModeStaysValid(args: seq<Arg>)
    ensures 1 <= Parse(args).mode <= 5
  {
    if args != [] {
      ModeStaysValid(args[..|args| - 1]);
    }
  }

  /** The only two options that take the mode below VERIFY_CA. */
  predicate Lowers(a: Arg) {
    a == Ssl(false) || (a.SslMode? && a.mode < VERIFY_CA)
  }

  /** Once the mode has reached VERIFY_CA, only --ssl-mode or --ssl=0 in between can have taken it below. */
  lemma {:induction false} OnlyTwoOptionsLower(args: seq<Arg>, i: nat, j: nat)
    requires i <= j <= |args|
    requires Parse(args[..i]).mode >= VERIFY_CA && Parse(args[..j]).mode < VERIFY_CA
    ensures exists k :: i <= k < j && Lowers(args[k])
  {
    if i < j {
      assert args[..j][..j - 1] == args[..j - 1] && args[..j][j - 1] == args[j - 1];
      if !Lowers(args[j - 1]) {
        OnlyTwoOptionsLower(args, i, j - 1);
        var k :| i <= k < j - 1 && Lowers(args[k]);
        assert i <= k < j && Lowers(args[k]);
      }
    }
  }

  predicate GivesCa(a: Arg) {
    a.Ca? || a.CaPath?
  }

  /** Whether the last of the options --ssl=0, --ssl-verify-server-cert, --ssl-ca, --ssl-capath is --ssl=0. */
  function SwitchedOff(args: seq<Arg>): bool {
    if args == [] then false
    else
      var a := args[|args| - 1];
      if a == Ssl(false) then true
      else if GivesCa(a) || a == VerifyServerCert(true) then false
      else SwitchedOff(args[..|args| - 1])
  }

  ghost predicate Given(args: seq<Arg>) {
    exists i :: 0 <= i < |args| && GivesCa(args[i])
  }

  ghost predicate Explicit(args: seq<Arg>) {
    exists i :: 0 <= i < |args| && args[i].SslMode?
  }

  lemma {:induction false} WhatParseRemembers(args: seq<Arg>)
    ensures Parse(args).explicitly <==> Explicit(args)
    ensures Parse(args).ca.Some? || Parse(args).capath.Some? <==> Given(args)
  {
    if args != [] {
      var n := |args| - 1;
      WhatParseRemembers(args[..n]);
      assert Explicit(args) <==> Explicit(args[..n]) || args[n].SslMode? by {
        if i :| 0 <= i < |args| && args[i].SslMode? && i < n {
          assert args[..n][i].SslMode?;
        }
        if Explicit(args[..n]) {
          var i :| 0 <= i < n && args[..n][i].SslMode?;
          assert args[i].SslMode?;
        }
      }
      assert Given(args) <==> Given(args[..n]) || GivesCa(args[n]) by {
        if i :| 0 <= i < |args| && GivesCa(args[i]) && i < n {
          assert GivesCa(args[..n][i]);
        }
        if Given(args[..n]) {
          var i :| 0 <= i < n && GivesCa(args[..n][i]);
          assert GivesCa(args[i]);
        }
      }
    }
  }

  /** Without --ssl-mode, a given CA is out of force exactly when --ssl=0 had the last word. */
  lemma {:induction false} ModeWithoutSslMode(args: seq<Arg>)
    requires !Parse(args).explicitly
    ensures Parse(args).ca.Some? || Parse(args).capath.Some? ==> (Parse(args).mode < VERIFY_CA <==> SwitchedOff(args))
    ensures SwitchedOff(args) ==> Parse(args).mode < VERIFY_CA
  {
    if args != [] {
      ModeWithoutSslMode(args[..|args| - 1]);
    }
  }

  /**
   A CA file or path is given but neither passed on nor warned about, if and only if --ssl-mode was never
   used and --ssl=0 came after the last CA option with no --ssl-verify-server-cert after it.
   */
  lemma {:induction false} SilentlyDroppedIff(args: seq<Arg>)
    ensures Given(args) && !Final(Parse(args)).passesCa && !Final(Parse(args)).warned
            <==> Given(args) && !Explicit(args) && SwitchedOff(args)
  {
    WhatParseRemembers(args);
    if !Parse(args).explicitly {
      ModeWithoutSslMode(args);
    }
  }

  /** `--ssl-ca=file --ssl=0`: the file is neither used nor mentioned. */
  lemma {:induction false} CaCanBeDropped(file: string)
    ensures var args := [Ca(file), Ssl(false)];
            Given(args) && !Final(Parse(args)).passesCa && !Final(Parse(args)).warned
  {
    var args := [Ca(file), Ssl(false)];
    assert GivesCa(args[0]) && args[1] == Ssl(false);
    assert args[..1] == [Ca(file)] && [Ca(file)][..0] == [];
    assert SwitchedOff(args);
    SilentlyDroppedIff(args);
  }

  /** In particular --ssl=0 then occurred after the last CA option. */
  lemma {:induction false} SwitchedOffAfterLastCa(args: seq<Arg>, i: nat)
    requires SwitchedOff(args) && i < |args| && GivesCa(args[i])
    ensures exists j :: i < j < |args| && args[j] == Ssl(false)
  {
    var n := |args| - 1;
    if args[n] == Ssl(false) {
      assert i < n;
    } else {
      SwitchedOffAfterLastCa(args[..n], i);
      var j :| i < j < n && args[..n][j] == Ssl(false);
      assert args[j] == Ssl(false);
    }
  }
}
