/**
 The agenda: the EVENTOS table, which has no unique key, the operations of `EventoDAO` on it, and the
 session of `UsuarioActivo` with its cached listing, which the window's handlers replace as a whole and
 the reminder thread reads at any moment.

 The table is a sequence of rows in no particular order; SQL statements always succeed.
 */
module Agenda {
  import opened Common

  datatype Evento = Evento(usuario: string, fecha: int, hora: int, titulo: string, desc: string)

  type Tabla = seq<Evento>

  // ---------------------------------------------------------------- selecting and ordering rows

  type Condition = Evento -> bool

  function Select(t: Tabla, p: Condition): Tabla {
    if t == [] then []
    else
      var n := |t| - 1;
      if p(t[n]) then Select(t[..n], p) + [t[n]] else Select(t[..n], p)
  }

  function OfUser(u: string): Condition {
    (e: Evento) => e.usuario == u
  }

  function OfUserOn(u: string, fecha: int): Condition {
    (e: Evento) => e.usuario == u && e.fecha == fecha
  }

  /** The WHERE clause of update and delete; any number of rows may meet it. */
  function InSlot(u: string, fecha: int, hora: int): Condition {
    (e: Evento) => e.usuario == u && e.fecha == fecha && e.hora == hora
  }

  type Order = (Evento, Evento) -> bool

  /** ORDER BY FEC_EVE DESC, HOR_EVE DESC */
  predicate LatestFirst(a: Evento, b: Evento) {
    a.fecha > b.fecha || (a.fecha == b.fecha && a.hora >= b.hora)
  }

  /** ORDER BY HOR_EVE */
  predicate ByHour(a: Evento, b: Evento) {
    a.hora <= b.hora
  }

  ghost predicate TotalPreorder(le: Order) {
    && (forall a, b :: le(a, b) || le(b, a))
    && (forall a, b, c :: le(a, b) && le(b, c) ==> le(a, c))
  }

  ghost predicate Ordered(l: seq<Evento>, le: Order) {
    forall i, j :: 0 <= i < j < |l| ==> le(l[i], l[j])
  }

  /** The result of a query: all selected rows with their multiplicities, in order, ties in any order. */
  ghost predicate IsResult(l: seq<Evento>, t: Tabla, p: Condition, le: Order) {
    multiset(l) == multiset(Select(t, p)) && Ordered(l, le)
  }

  /** A complete listing of a user's events, as `obtenerEventosPorUsuario` returns it. */
  ghost predicate IsListing(l: seq<Evento>, t: Tabla, u: string) {
    IsResult(l, t, OfUser(u), LatestFirst)
  }

  function Insert(l: seq<Evento>, e: Evento, le: Order): seq<Evento> {
    if l == [] then [e]
    else
      var n := |l| - 1;
      if le(l[n], e) then l + [e] else Insert(l[..n], e, le) + [l[n]]
  }

  lemma {:induction false} InsertAdds(l: seq<Evento>, e: Evento, le: Order)
    ensures multiset(Insert(l, e, le)) == multiset(l) + multiset{e}
    ensures forall x :: x in Insert(l, e, le) ==> x in l || x == e
  {
    if l != [] {
      var n := |l| - 1;
      InsertAdds(l[..n], e, le);
      assert l == l[..n] + [l[n]];
    }
  }

  lemma {:induction false} InsertOrdered(l: seq<Evento>, e: Evento, le: Order)
    requires TotalPreorder(le) && Ordered(l, le)
    ensures Ordered(Insert(l, e, le), le)
  {
    if l != [] {
      var n := |l| - 1;
      if !le(l[n], e) {
        InsertOrdered(l[..n], e, le);
        InsertAdds(l[..n], e, le);
        var rest := Insert(l[..n], e, le);
        forall i | 0 <= i < |rest| ensures le(rest[i], l[n]) {
          assert rest[i] in rest;
        }
      }
    }
  }

  method Query(t: Tabla, p: Condition, le: Order) returns (lista: seq<Evento>)
    requires TotalPreorder(le)
    ensures IsResult(lista, t, p, le)
  {
    lista := [];
    var i := 0;
    while i < |t|
      invariant 0 <= i <= |t|
      invariant IsResult(lista, t[..i], p, le)
    {
      assert t[..i + 1][..i] == t[..i];
      if p(t[i]) {
        InsertOrdered(lista, t[i], le);
        InsertAdds(lista, t[i], le);
        lista := Insert(lista, t[i], le);
      }
      i := i + 1;
    }
    assert t[..|t|] == t;
  }

  // ---------------------------------------------------------------- the statements that change the table

  /** UPDATE: every row that meets the condition becomes `nuevo`. */
  function Updated(t: Tabla, p: Condition, nuevo: Evento): Tabla {
    if t == [] then []
    else
      var n := |t| - 1;
      Updated(t[..n], p, nuevo) + [if p(t[n]) then nuevo else t[n]]
  }

  /** DELETE: every row that meets the condition goes. */
  function Deleted(t: Tabla, p: Condition): Tabla {
    if t == [] then []
    else
      var n := |t| - 1;
      if p(t[n]) then Deleted(t[..n], p) else Deleted(t[..n], p) + [t[n]]
  }

  function Copies(k: nat, e: Evento): (m: multiset<Evento>)
    ensures |m| == k
  {
    multiset{}[e := k]
  }

  lemma {:induction false} OneMoreCopy(k: nat, e: Evento)
    ensures Copies(k + 1, e) == Copies(k, e) + multiset{e}
  {
  }

  lemma {:induction false} SelectSnoc(t: Tabla, e: Evento, p: Condition)
    ensures Select(t + [e], p) == if p(e) then Select(t, p) + [e] else Select(t, p)
  {
    assert (t + [e])[..|t|] == t;
  }

  lemma {:induction false} AddCrosswise(a: multiset<Evento>, b: multiset<Evento>, c: multiset<Evento>,
                                        d: multiset<Evento>, x: multiset<Evento>, y: multiset<Evento>)
    requires a + b == c + d
    ensures (a + x) + (b + y) == (c + y) + (d + x)
  {
    forall z ensures ((a + x) + (b + y))[z] == ((c + y) + (d + x))[z] {
      assert (a + b)[z] == (c + d)[z];
    }
  }

  lemma {:induction false} Cancel(a: multiset<Evento>, b: multiset<Evento>, c: multiset<Evento>)
    requires a + c == b + c
    ensures a == b
  {
    forall z ensures a[z] == b[z] {
      assert (a + c)[z] == (b + c)[z];
    }
  }

  /** An update replaces the selected rows by as many copies of the new one; nothing else changes. */
  lemma {:induction false} UpdatedIs(t: Tabla, p: Condition, nuevo: Evento)
    ensures |Updated(t, p, nuevo)| == |t|
    ensures multiset(Updated(t, p, nuevo)) + multiset(Select(t, p)) == multiset(t) + Copies(|Select(t, p)|, nuevo)
  {
    if t == [] {
      assert Copies(0, nuevo) == multiset{};
    } else {
      var n := |t| - 1;
      var before := t[..n];
      UpdatedIs(before, p, nuevo);
      assert t == before + [t[n]];
      var u, s := multiset(Updated(before, p, nuevo)), multiset(Select(before, p));
      var c := Copies(|Select(before, p)|, nuevo);
      if p(t[n]) {
        OneMoreCopy(|Select(before, p)|, nuevo);
        AddCrosswise(u, s, multiset(before), c, multiset{nuevo}, multiset{t[n]});
      } else {
        var x, none := multiset{t[n]}, multiset{};
        AddCrosswise(u, s, c, multiset(before), x, none);
        assert s + none == s && c + none == c;
        assert c + (multiset(before) + x) == (multiset(before) + x) + c;
      }
    }
  }

  lemma {:induction false} DeletedIs(t: Tabla, p: Condition)
    ensures multiset(Deleted(t, p)) + multiset(Select(t, p)) == multiset(t)
    ensures |Deleted(t, p)| + |Select(t, p)| == |t|
  {
    if t != [] {
      var n := |t| - 1;
      DeletedIs(t[..n], p);
      assert t == t[..n] + [t[n]];
    }
  }

  /** Rows outside the condition keep their places, whatever else one looks for among them. */
  lemma {:induction false} OthersKept(t: Tabla, p: Condition, q: Condition, nuevo: Evento)
    requires forall e :: p(e) ==> !q(e)
    requires !q(nuevo)
    ensures Select(Updated(t, p, nuevo), q) == Select(t, q)
    ensures Select(Deleted(t, p), q) == Select(t, q)
    ensures Select(t + [nuevo], q) == Select(t, q)
  {
    SelectSnoc(t, nuevo, q);
    if t != [] {
      var n := |t| - 1;
      OthersKept(t[..n], p, q, nuevo);
      SelectSnoc(Updated(t[..n], p, nuevo), if p(t[n]) then nuevo else t[n], q);
      SelectSnoc(Deleted(t[..n], p), t[n], q);
    }
  }

  lemma {:induction false} SelectedAreInTable(t: Tabla, p: Condition)
    ensures forall e :: e in Select(t, p) <==> e in t && p(e)
  {
    if t != [] {
      var n := |t| - 1;
      SelectedAreInTable(t[..n], p);
      assert t == t[..n] + [t[n]];
    }
  }

  /** A query finds every row that meets the condition as often as the table holds it, and no other. */
  lemma {:induction false} SelectCounts(t: Tabla, p: Condition, x: Evento)
    ensures multiset(Select(t, p))[x] == if p(x) then multiset(t)[x] else 0
  {
    if t != [] {
      var n := |t| - 1;
      SelectCounts(t[..n], p, x);
      assert t == t[..n] + [t[n]];
    }
  }

  // ---------------------------------------------------------------- the statements, field by field

  /** All of the user's events, the latest date and, within a date, the latest hour first. */
  ghost predicate IsFullList(l: seq<Evento>, t: Tabla, u: string) {
    && (forall x :: multiset(l)[x] == if x.usuario == u then multiset(t)[x] else 0)
    && (forall i, j :: 0 <= i < j < |l| ==>
          l[i].fecha > l[j].fecha || (l[i].fecha == l[j].fecha && l[i].hora >= l[j].hora))
  }

  /** The user's events of one day, by hour. */
  ghost predicate IsDayList(l: seq<Evento>, t: Tabla, u: string, fecha: int) {
    && (forall x :: multiset(l)[x] == if x.usuario == u && x.fecha == fecha then multiset(t)[x] else 0)
    && (forall i, j :: 0 <= i < j < |l| ==> l[i].hora <= l[j].hora)
  }

  lemma {:induction false} SameCounts(l: seq<Evento>, t: Tabla, p: Condition)
    ensures multiset(l) == multiset(Select(t, p))
            <==> forall x :: multiset(l)[x] == if p(x) then multiset(t)[x] else 0
  {
    forall x ensures multiset(Select(t, p))[x] == if p(x) then multiset(t)[x] else 0 {
      SelectCounts(t, p, x);
    }
    if forall x :: multiset(l)[x] == if p(x) then multiset(t)[x] else 0 {
      assert forall x :: multiset(l)[x] == multiset(Select(t, p))[x];
    }
  }

  /** Both listings of the DAO, by the fields of the rows. */
  lemma {:induction false} ListingsByFields(l: seq<Evento>, t: Tabla, u: string, fecha: int)
    ensures IsListing(l, t, u) <==> IsFullList(l, t, u)
    ensures IsResult(l, t, OfUserOn(u, fecha), ByHour) <==> IsDayList(l, t, u, fecha)
  {
    SameCounts(l, t, OfUser(u));
    SameCounts(l, t, OfUserOn(u, fecha));
  }

  /** An update, row by row: those of this user, date and time become the new row, all others stay. */
  lemma {:induction false} UpdatedByFields(t: Tabla, u: string, fecha: int, hora: int, nuevo: Evento)
    ensures var after := Updated(t, InSlot(u, fecha, hora), nuevo);
            && |after| == |t|
            && forall i :: 0 <= i < |t| ==>
                 after[i] == if t[i].usuario == u && t[i].fecha == fecha && t[i].hora == hora then nuevo else t[i]
  {
    if t != [] {
      UpdatedByFields(t[..|t| - 1], u, fecha, hora, nuevo);
    }
  }

  /** A delete: no row of this user, date and time is left, every other as often as before. */
  lemma {:induction false} DeletedByFields(t: Tabla, u: string, fecha: int, hora: int)
    ensures var after := Deleted(t, InSlot(u, fecha, hora));
            forall x :: multiset(after)[x] == if x.usuario == u && x.fecha == fecha && x.hora == hora then 0
                                              else multiset(t)[x]
  {
    var p := InSlot(u, fecha, hora);
    DeletedIs(t, p);
    forall x ensures multiset(Deleted(t, p))[x] == multiset(t)[x] - multiset(Select(t, p))[x]
      ensures multiset(Select(t, p))[x] == if p(x) then multiset(t)[x] else 0
    {
      SelectCounts(t, p, x);
      assert (multiset(Deleted(t, p)) + multiset(Select(t, p)))[x] == multiset(t)[x];
    }
  }

  /** Every row with the user, date and time of `e` has become `nuevo`; every other is as it was. */
  ghost predicate SlotOverwritten(t: Tabla, after: Tabla, e: Evento, nuevo: Evento) {
    && |after| == |t|
    && forall i :: 0 <= i < |t| ==>
         after[i] == if t[i].usuario == e.usuario && t[i].fecha == e.fecha && t[i].hora == e.hora then nuevo else t[i]
  }

  /** That is what the update statement for the slot of `e` does, and nothing else does it. */
  lemma {:induction false} OverwrittenIsUpdated(t: Tabla, after: Tabla, e: Evento, nuevo: Evento)
    ensures SlotOverwritten(t, after, e, nuevo) <==> after == Updated(t, InSlot(e.usuario, e.fecha, e.hora), nuevo)
  {
    UpdatedByFields(t, e.usuario, e.fecha, e.hora, nuevo);
  }

  /** No row with the user, date and time of `e` is left; every other is there as often as it was. */
  ghost predicate SlotCleared(t: Tabla, after: Tabla, e: Evento) {
    forall x :: multiset(after)[x] == if x.usuario == e.usuario && x.fecha == e.fecha && x.hora == e.hora then 0
                                      else multiset(t)[x]
  }

  /** The event at place `idx` of the user's events of the day, by hour; ties in any order. */
  ghost predicate IsChoice(t: Tabla, u: string, fecha: int, idx: nat, e: Evento) {
    exists l :: IsDayList(l, t, u, fecha) && idx < |l| && l[idx] == e
  }

  /** The hour of the chosen event is the idx-th smallest: so many events of the day are earlier, or not later. */
  lemma {:induction false} ChoiceByRank(t: Tabla, u: string, fecha: int, idx: nat, e: Evento, earlier: Condition,
                                        upTo: Condition)
    requires IsChoice(t, u, fecha, idx, e)
    requires forall x :: earlier(x) <==> x.usuario == u && x.fecha == fecha && x.hora < e.hora
    requires forall x :: upTo(x) <==> x.usuario == u && x.fecha == fecha && x.hora <= e.hora
    ensures |Select(t, earlier)| <= idx < |Select(t, upTo)|
    ensures e in t && e.usuario == u && e.fecha == fecha
  {
    var l :| IsDayList(l, t, u, fecha) && idx < |l| && l[idx] == e;
    assert e in multiset(l);
    RankInList(l, t, u, fecha, idx, earlier, upTo);
  }

  lemma {:induction false} RankInList(l: seq<Evento>, t: Tabla, u: string, fecha: int, idx: nat, earlier: Condition,
                                      upTo: Condition)
    requires IsDayList(l, t, u, fecha) && idx < |l|
    requires forall x :: earlier(x) <==> x.usuario == u && x.fecha == fecha && x.hora < l[idx].hora
    requires forall x :: upTo(x) <==> x.usuario == u && x.fecha == fecha && x.hora <= l[idx].hora
    ensures |Select(t, earlier)| <= idx < |Select(t, upTo)|
  {
    SelectSame(l, t, u, fecha, earlier);
    SelectSame(l, t, u, fecha, upTo);
    SelectAfter(l, earlier, idx);
    SelectUpTo(l, upTo, idx + 1);
  }

  /** Selecting among the day's events in the day's list or in the table is the same. */
  lemma {:induction false} SelectSame(l: seq<Evento>, t: Tabla, u: string, fecha: int, p: Condition)
    requires IsDayList(l, t, u, fecha) && forall x :: p(x) ==> x.usuario == u && x.fecha == fecha
    ensures |Select(l, p)| == |Select(t, p)|
  {
    forall x ensures multiset(Select(l, p))[x] == multiset(Select(t, p))[x] {
      SelectCounts(l, p, x);
      SelectCounts(t, p, x);
    }
    assert multiset(Select(l, p)) == multiset(Select(t, p));
    assert |multiset(Select(l, p))| == |Select(l, p)| && |multiset(Select(t, p))| == |Select(t, p)|;
  }

  lemma {:induction false} SelectAfter(l: seq<Evento>, p: Condition, n: nat)
    requires n <= |l| && forall i :: n <= i < |l| ==> !p(l[i])
    ensures |Select(l, p)| <= n
  {
    if |l| > n {
      SelectAfter(l[..|l| - 1], p, n);
    } else {
      SelectAtMostAll(l, p);
    }
  }

  lemma {:induction false} SelectAtMostAll(l: seq<Evento>, p: Condition)
    ensures |Select(l, p)| <= |l|
  {
    if l != [] {
      SelectAtMostAll(l[..|l| - 1], p);
    }
  }

  lemma {:induction false} SelectUpTo(l: seq<Evento>, p: Condition, n: nat)
    requires n <= |l| && forall i :: 0 <= i < n ==> p(l[i])
    ensures |Select(l, p)| >= n
  {
    if l != [] {
      SelectUpTo(l[..|l| - 1], p, if n < |l| then n else n - 1);
    }
  }

  // ---------------------------------------------------------------- no unique key: what edit and delete really do

  /** The rows that share the selected row's slot. */
  function Slot(t: Tabla, e: Evento): Tabla {
    Select(t, InSlot(e.usuario, e.fecha, e.hora))
  }

  /**
   Editing a row changes that row alone if and only if every other row of its slot already is what the
   edit makes of it; otherwise the other events of that date and time are overwritten too.
   */
  lemma {:induction false} EditTouchesOnlySelected(t: Tabla, e: Evento, nuevo: Evento)
    requires e in t
    ensures var after := Updated(t, InSlot(e.usuario, e.fecha, e.hora), nuevo);
            multiset(after) == multiset(t) - multiset{e} + multiset{nuevo}
            <==> forall x :: (x in multiset(t) - multiset{e}
                              && x.usuario == e.usuario && x.fecha == e.fecha && x.hora == e.hora) ==> x == nuevo
  {
    var p := InSlot(e.usuario, e.fecha, e.hora);
    OthersInSlot(t, e);
    UpdatedIs(t, p, nuevo);
    DeletedIs(t, p);
    SelectedAreInTable(t, p);
    assert e in Slot(t, e);
    OneForOne(multiset(Updated(t, p, nuevo)), multiset(Slot(t, e)), multiset(t), e, nuevo);
    AllEqualIff(multiset(Slot(t, e)) - multiset{e}, nuevo);
  }

  /** The other rows of a row's slot are the other rows with its user, date and time. */
  lemma {:induction false} OthersInSlot(t: Tabla, e: Evento)
    ensures forall x :: x in multiset(Slot(t, e)) - multiset{e}
                        <==> x in multiset(t) - multiset{e}
                             && x.usuario == e.usuario && x.fecha == e.fecha && x.hora == e.hora
  {
    forall x ensures multiset(Slot(t, e))[x] == if InSlot(e.usuario, e.fecha, e.hora)(x) then multiset(t)[x] else 0 {
      SelectCounts(t, InSlot(e.usuario, e.fecha, e.hora), x);
    }
  }

  lemma {:induction false} Regroup(a: multiset<Evento>, b: multiset<Evento>, c: multiset<Evento>, d: multiset<Evento>)
    ensures a + (b + c) == (a + b) + c
    ensures (a + d) + (b + c) == ((a + c) + b) + d
  {
  }

  lemma {:induction false} WithoutOne(m: multiset<Evento>, e: Evento)
    requires e in m
    ensures m == (m - multiset{e}) + multiset{e} && |m| == |m - multiset{e}| + 1
  {
    assert m == (m - multiset{e}) + multiset{e};
  }

  lemma {:induction false} CancelEither(a: multiset<Evento>, b: multiset<Evento>, c: multiset<Evento>,
                                        d: multiset<Evento>)
    requires a + b == c + d
    ensures a == c <==> b == d
  {
    if b == d {
      Cancel(a, c, b);
    }
    if a == c {
      assert b + a == a + b && d + a == a + d;
      Cancel(b, d, a);
    }
  }

  /** Swapping a whole slot for copies of one row is a swap of one row exactly if the rest were copies. */
  lemma {:induction false} OneForOne(after: multiset<Evento>, slot: multiset<Evento>, t: multiset<Evento>,
                                     e: Evento, nuevo: Evento)
    requires e in slot && slot <= t && after + slot == t + Copies(|slot|, nuevo)
    ensures after == t - multiset{e} + multiset{nuevo}
            <==> slot - multiset{e} == Copies(|slot - multiset{e}|, nuevo)
  {
    var others, rest, one, new1 := slot - multiset{e}, t - multiset{e}, multiset{e}, multiset{nuevo};
    var c := Copies(|others|, nuevo);
    WithoutOne(slot, e);
    WithoutOne(t, e);
    OneMoreCopy(|others|, nuevo);
    Regroup(after, others, one, one);
    Regroup(rest, c, new1, one);
    Cancel(after + others, (rest + new1) + c, one);
    CancelEither(after, others, rest + new1, c);
  }

  lemma {:induction false} AllEqualIff(m: multiset<Evento>, e: Evento)
    ensures m == Copies(|m|, e) <==> forall x :: x in m ==> x == e
  {
    if forall x :: x in m ==> x == e {
      AllEqual(m, e);
    } else {
      var x :| x in m && x != e;
      assert Copies(|m|, e)[x] == 0;
    }
  }

  lemma {:induction false} AllEqual(m: multiset<Evento>, e: Evento)
    requires forall x :: x in m ==> x == e
    ensures m == Copies(|m|, e)
  {
    if m == multiset{} {
      assert Copies(0, e) == multiset{};
    } else {
      var x :| x in m;
      var rest := m - multiset{e};
      assert m == rest + multiset{e};
      AllEqual(rest, e);
      OneMoreCopy(|rest|, e);
    }
  }

  /** Deleting a row deletes that row alone if and only if it is alone in its slot. */
  lemma {:induction false} DeleteRemovesOnlySelected(t: Tabla, e: Evento)
    requires e in t
    ensures var after := Deleted(t, InSlot(e.usuario, e.fecha, e.hora));
            multiset(after) == multiset(t) - multiset{e}
            <==> forall x :: x in multiset(t) - multiset{e}
                             ==> x.usuario != e.usuario || x.fecha != e.fecha || x.hora != e.hora
  {
    var after, rest := Deleted(t, InSlot(e.usuario, e.fecha, e.hora)), multiset(t) - multiset{e};
    DeletedByFields(t, e.usuario, e.fecha, e.hora);
    if forall x :: x in rest ==> x.usuario != e.usuario || x.fecha != e.fecha || x.hora != e.hora {
      forall x ensures multiset(after)[x] == rest[x] {
        if x == e {
          assert e !in rest;
        }
      }
    } else {
      var x :| x in rest && x.usuario == e.usuario && x.fecha == e.fecha && x.hora == e.hora;
      assert multiset(after)[x] == 0;
    }
  }

  /** Two different events at one date and time: editing the one overwrites the other. */
  lemma {:induction false} EditCanLoseAnEvent(e: Evento, other: Evento, nuevo: Evento)
    requires other.usuario == e.usuario && other.fecha == e.fecha && other.hora == e.hora && other != nuevo
    ensures multiset(Updated([e, other], InSlot(e.usuario, e.fecha, e.hora), nuevo))
            != multiset([e, other]) - multiset{e} + multiset{nuevo}
  {
    assert multiset([e, other]) - multiset{e} == multiset{other};
    assert other in multiset([e, other]) - multiset{e};
    EditTouchesOnlySelected([e, other], e, nuevo);
  }

  /** Two events at one date and time: deleting the one deletes the other, too. */
  lemma {:induction false} DeleteCanLoseAnEvent(e: Evento, other: Evento)
    requires other.usuario == e.usuario && other.fecha == e.fecha && other.hora == e.hora
    ensures Deleted([e, other], InSlot(e.usuario, e.fecha, e.hora)) == []
    ensures multiset(Deleted([e, other], InSlot(e.usuario, e.fecha, e.hora))) != multiset([e, other]) - multiset{e}
  {
    var t, p := [e, other], InSlot(e.usuario, e.fecha, e.hora);
    assert t[..1] == [e] && [e][..0] == [];
    assert Deleted([e], p) == [] && Deleted(t, p) == Deleted([e], p);
    assert multiset(t) - multiset{e} == multiset{other};
  }

  /** After an edit nothing is left in the old slot, unless the new date and time are the old ones. */
  lemma {:induction false} EditEmptiesOldSlot(t: Tabla, p: Condition, nuevo: Evento)
    ensures Select(Updated(t, p, nuevo), p) == [] || p(nuevo)
  {
    if t != [] {
      var n := |t| - 1;
      EditEmptiesOldSlot(t[..n], p, nuevo);
      SelectSnoc(Updated(t[..n], p, nuevo), if p(t[n]) then nuevo else t[n], p);
    }
  }

  // ---------------------------------------------------------------- the application

  /** A value the cached list once had: whose it was, the rows, and how many table versions there were. */
  datatype Vista = Vista(usuario: string, lista: seq<Evento>, version: nat)

  /** Every list the reminder thread can ever have read is complete, and later lists are not older. */
  ghost predicate HonestLog(versiones: seq<Tabla>, vistas: seq<Vista>) {
    && (forall v :: v in vistas ==>
          v.version < |versiones| && IsListing(v.lista, versiones[v.version], v.usuario))
    && (forall i, j :: 0 <= i < j < |vistas| ==> vistas[i].version <= vistas[j].version)
  }

  lemma {:induction false} HonestStore(versiones: seq<Tabla>, vistas: seq<Vista>, t: Tabla)
    requires HonestLog(versiones, vistas)
    ensures HonestLog(versiones + [t], vistas)
  {
    forall v | v in vistas ensures IsListing(v.lista, (versiones + [t])[v.version], v.usuario) {
      assert (versiones + [t])[v.version] == versiones[v.version];
    }
  }

  lemma {:induction false} HonestView(versiones: seq<Tabla>, vistas: seq<Vista>, v: Vista)
    requires HonestLog(versiones, vistas) && v.version == |versiones| - 1
    requires versiones != [] && IsListing(v.lista, versiones[v.version], v.usuario)
    ensures HonestLog(versiones, vistas + [v])
  {
    forall i | 0 <= i < |vistas| ensures vistas[i].version <= v.version {
      assert vistas[i] in vistas;
    }
  }

  class Aplicacion {
    var tabla: Tabla
    var usuarios: map<string, string>
    var usuarioActual: Option<string>
    var eventosDelUsuario: Option<seq<Evento>>
    /** Every version of the table and every value of the cache so far, oldest first. */
    ghost var versiones: seq<Tabla>
    ghost var vistas: seq<Vista>

    /** Between two handlers the cache is a listing of the table as it is, for the active user. */
    ghost predicate Valid()
      reads this
    {
      && HonestLog(versiones, vistas)
      && versiones != [] && versiones[|versiones| - 1] == tabla
      && (usuarioActual.None? <==> eventosDelUsuario.None?)
      && (usuarioActual.Some? ==>
            && IsListing(eventosDelUsuario.value, tabla, usuarioActual.value)
            && vistas != []
            && vistas[|vistas| - 1] == Vista(usuarioActual.value, eventosDelUsuario.value, |versiones| - 1))
    }

    /** Everything the reminder thread has seen stays on record. */
    twostate predicate Grown()
      reads this
    {
      old(versiones) <= versiones && old(vistas) <= vistas
    }

    constructor (tabla: Tabla, usuarios: map<string, string>)
      ensures Valid() && this.tabla == tabla && this.usuarios == usuarios && usuarioActual == None
    {
      this.tabla, this.usuarios := tabla, usuarios;
      usuarioActual, eventosDelUsuario := None, None;
      versiones, vistas := [tabla], [];
    }

    /** The user's events: `listarEventos`. */
    method ListarEventos(u: string) returns (lista: seq<Evento>)
      ensures IsListing(lista, tabla, u)
    {
      LatestFirstIsPreorder();
      lista := Query(tabla, OfUser(u), LatestFirst);
    }

    /** List the user's events and replace the cache: `listarEventos` and `actualizarEventos`. */
    method Refresh(u: string)
      requires usuarioActual == Some(u)
      requires versiones != [] && versiones[|versiones| - 1] == tabla && HonestLog(versiones, vistas)
      modifies this`eventosDelUsuario, this`vistas
      ensures Valid() && old(vistas) <= vistas
    {
      var lista := ListarEventos(u);
      eventosDelUsuario := Some(lista);
      HonestView(versiones, vistas, Vista(u, lista, |versiones| - 1));
      vistas := vistas + [Vista(u, lista, |versiones| - 1)];
    }

    /**
     A statement changes the table and, if it touched any row, the cache is replaced by a new listing. In
     between, the reminder thread still reads the old one.
     */
    method Commit(t: Tabla, filas: nat)
      requires Valid() && usuarioActual.Some? && (filas == 0 ==> t == tabla)
      modifies this`tabla, this`versiones, this`eventosDelUsuario, this`vistas
      ensures Valid() && tabla == t
      ensures old(versiones) <= versiones && old(vistas) <= vistas
    {
      tabla := t;
      if filas > 0 {
        HonestStore(versiones, vistas, t);
        versiones := versiones + [t];
        Refresh(usuarioActual.value);
      }
    }

    /** `LoginController.iniciarSesion` */
    method IniciarSesion(cedula: string, contrasena: string) returns (ok: bool)
      requires Valid()
      modifies this
      ensures Valid() && Grown() && usuarios == old(usuarios) && tabla == old(tabla)
      ensures ok <==> cedula in usuarios && usuarios[cedula] == contrasena
      ensures usuarioActual == if ok then Some(cedula) else old(usuarioActual)
      ensures !ok ==> eventosDelUsuario == old(eventosDelUsuario)
    {
      if cedula !in usuarios || usuarios[cedula] != contrasena {
        return false;
      }
      usuarioActual := Some(cedula);
      Refresh(cedula);
      return true;
    }

    /** The logout label: `UsuarioActivo.cerrarSesion` */
    method CerrarSesion()
      requires Valid()
      modifies this`usuarioActual, this`eventosDelUsuario
      ensures Valid() && usuarioActual == None && eventosDelUsuario == None
    {
      usuarioActual, eventosDelUsuario := None, None;
    }

    /** The "Agendar" handler with `EventoController.crearEvento`; without a session it fails. */
    method Crear(fecha: Option<int>, hora: Option<int>, titulo: string, desc: string) returns (ok: bool)
      requires Valid()
      modifies this`tabla, this`versiones, this`eventosDelUsuario, this`vistas
      ensures Valid() && Grown()
      ensures ok <==> usuarioActual.Some? && titulo != "" && desc != "" && fecha.Some? && hora.Some?
      ensures ok ==> tabla == old(tabla) + [Evento(usuarioActual.value, fecha.value, hora.value, titulo, desc)]
      ensures !ok ==> tabla == old(tabla) && eventosDelUsuario == old(eventosDelUsuario)
    {
      if usuarioActual.None? || titulo == "" || desc == "" || fecha.None? || hora.None? {
        return false;
      }
      Commit(tabla + [Evento(usuarioActual.value, fecha.value, hora.value, titulo, desc)], 1);
      return true;
    }

    /** The day's rows offered for selection: `listarEventosPorFecha`. */
    method ListarPorFecha(u: string, fecha: int) returns (evs: seq<Evento>)
      ensures IsResult(evs, tabla, OfUserOn(u, fecha), ByHour) && IsDayList(evs, tabla, u, fecha)
    {
      ByHourIsPreorder();
      evs := Query(tabla, OfUserOn(u, fecha), ByHour);
      ListingsByFields(evs, tabla, u, fecha);
    }

    /** The row the user picks from the day's list. */
    method Elegir(fechaSel: int, idx: nat) returns (elegido: Option<Evento>)
      ensures elegido.Some? <==>
                usuarioActual.Some? && idx < |Select(tabla, OfUserOn(usuarioActual.value, fechaSel))|
      ensures elegido.Some? ==>
                && elegido.value in tabla
                && elegido.value.usuario == usuarioActual.value && elegido.value.fecha == fechaSel
                && IsChoice(tabla, usuarioActual.value, fechaSel, idx, elegido.value)
    {
      if usuarioActual.None? {
        return None;
      }
      var p := OfUserOn(usuarioActual.value, fechaSel);
      var evs := ListarPorFecha(usuarioActual.value, fechaSel);
      ResultSize(evs, tabla, p, ByHour);
      if idx >= |evs| {
        return None;
      }
      var e := evs[idx];
      assert IsChoice(tabla, usuarioActual.value, fechaSel, idx, e);
      assert e in multiset(evs);
      SelectedAreInTable(tabla, p);
      return Some(e);
    }

    /** `editarEvento`: one update for the row's old slot, and the cache refreshed. */
    method Sobrescribir(e: Evento, nuevo: Evento)
      requires Valid() && usuarioActual.Some? && e in tabla
      modifies this`tabla, this`versiones, this`eventosDelUsuario, this`vistas
      ensures Valid() && old(versiones) <= versiones && old(vistas) <= vistas
      ensures SlotOverwritten(old(tabla), tabla, e, nuevo)
    {
      SelectedAreInTable(tabla, InSlot(e.usuario, e.fecha, e.hora));
      UpdatedByFields(tabla, e.usuario, e.fecha, e.hora, nuevo);
      Commit(Updated(tabla, InSlot(e.usuario, e.fecha, e.hora), nuevo), |Slot(tabla, e)|);
    }

    /** `eliminarEvento`: one delete for the row's slot, and the cache refreshed. */
    method Borrar(e: Evento)
      requires Valid() && usuarioActual.Some? && e in tabla
      modifies this`tabla, this`versiones, this`eventosDelUsuario, this`vistas
      ensures Valid() && old(versiones) <= versiones && old(vistas) <= vistas
      ensures tabla == Deleted(old(tabla), InSlot(e.usuario, e.fecha, e.hora))
      ensures SlotCleared(old(tabla), tabla, e)
    {
      SelectedAreInTable(tabla, InSlot(e.usuario, e.fecha, e.hora));
      DeletedByFields(tabla, e.usuario, e.fecha, e.hora);
      Commit(Deleted(tabla, InSlot(e.usuario, e.fecha, e.hora)), |Slot(tabla, e)|);
    }

    /**
     The "Editar" handler: row `idx` of the day's list gets new contents. The row is looked up again by
     user, date and time, so the whole slot is overwritten; nothing is validated.
     */
    method Editar(fechaSel: int, idx: nat, titulo: string, desc: string, fecha: int, hora: int)
      returns (original: Option<Evento>)
      requires Valid()
      modifies this`tabla, this`versiones, this`eventosDelUsuario, this`vistas
      ensures Valid() && Grown()
      ensures original.Some? <==>
                usuarioActual.Some? && idx < |Select(old(tabla), OfUserOn(usuarioActual.value, fechaSel))|
      ensures original.Some? ==>
                var e := original.value;
                && IsChoice(old(tabla), usuarioActual.value, fechaSel, idx, e)
                && e in old(tabla) && e.usuario == usuarioActual.value && e.fecha == fechaSel
                && SlotOverwritten(old(tabla), tabla, e, Evento(e.usuario, fecha, hora, titulo, desc))
      ensures original.None? ==> tabla == old(tabla) && eventosDelUsuario == old(eventosDelUsuario)
    {
      original := Elegir(fechaSel, idx);
      if original.Some? {
        var e := original.value;
        Sobrescribir(e, Evento(e.usuario, fecha, hora, titulo, desc));
      }
    }

    /** The "Eliminar" handler after confirmation: the whole slot of row `idx` of the day's list goes. */
    method Eliminar(fechaSel: int, idx: nat) returns (original: Option<Evento>)
      requires Valid()
      modifies this`tabla, this`versiones, this`eventosDelUsuario, this`vistas
      ensures Valid() && Grown()
      ensures original.Some? <==>
                usuarioActual.Some? && idx < |Select(old(tabla), OfUserOn(usuarioActual.value, fechaSel))|
      ensures original.Some? ==>
                var e := original.value;
                && IsChoice(old(tabla), usuarioActual.value, fechaSel, idx, e)
                && e in old(tabla) && e.usuario == usuarioActual.value && e.fecha == fechaSel
                && tabla == Deleted(old(tabla), InSlot(e.usuario, e.fecha, e.hora))
      ensures original.Some? ==> SlotCleared(old(tabla), tabla, original.value)
      ensures original.None? ==> tabla == old(tabla) && eventosDelUsuario == old(eventosDelUsuario)
    {
      original := Elegir(fechaSel, idx);
      if original.Some? {
        Borrar(original.value);
      }
    }

    /** One thing a user does: the invariant is kept, and rows of users who are not in session stay. */
    method Hacer(op: Op, ghost other: string)
      requires Valid() && usuarioActual != Some(other) && !(op.Login? && op.cedula == other)
      modifies this
      ensures Valid() && old(versiones) <= versiones && old(vistas) <= vistas && usuarioActual != Some(other)
      ensures Select(tabla, OfUser(other)) == old(Select(tabla, OfUser(other)))
    {
      ghost var t := tabla;
      match op {
        case Login(cedula, contrasena) =>
          var _ := IniciarSesion(cedula, contrasena);
        case Logout =>
          CerrarSesion();
        case Create(fecha, hora, titulo, desc) =>
          var ok := Crear(fecha, hora, titulo, desc);
          if ok {
            SelectSnoc(t, tabla[|t|], OfUser(other));
          }
        case Edit(fechaSel, idx, titulo, desc, fecha, hora) =>
          var original := Editar(fechaSel, idx, titulo, desc, fecha, hora);
          if original.Some? {
            EditKeepsOthers(t, tabla, original.value, Evento(original.value.usuario, fecha, hora, titulo, desc), other);
          }
        case Delete(fechaSel, idx) =>
          var original := Eliminar(fechaSel, idx);
          if original.Some? {
            ghost var e := original.value;
            OthersKept(t, InSlot(e.usuario, e.fecha, e.hora), OfUser(other), e);
          }
      }
    }

    /** Any run of the application: the invariant holds throughout, and strangers' rows are never touched. */
    method Run(ops: seq<Op>, ghost other: string)
      requires Valid()
      requires usuarioActual != Some(other)
      requires forall i :: 0 <= i < |ops| ==> !(ops[i].Login? && ops[i].cedula == other)
      modifies this
      ensures Valid() && Grown()
      ensures Select(tabla, OfUser(other)) == old(Select(tabla, OfUser(other)))
    {
      var i := 0;
      while i < |ops|
        invariant 0 <= i <= |ops|
        invariant Valid() && old(versiones) <= versiones && old(vistas) <= vistas
        invariant usuarioActual != Some(other)
        invariant Select(tabla, OfUser(other)) == old(Select(tabla, OfUser(other)))
      {
        Hacer(ops[i], other);
        i := i + 1;
      }
    }
  }

  lemma {:induction false} EditKeepsOthers(t: Tabla, after: Tabla, e: Evento, nuevo: Evento, other: string)
    requires SlotOverwritten(t, after, e, nuevo) && e.usuario == nuevo.usuario != other
    ensures Select(after, OfUser(other)) == Select(t, OfUser(other))
  {
    OverwrittenIsUpdated(t, after, e, nuevo);
    OthersKept(t, InSlot(e.usuario, e.fecha, e.hora), OfUser(other), nuevo);
  }

  /** What a user can do. */
  datatype Op =
    | Login(cedula: string, contrasena: string)
    | Logout
    | Create(fecha: Option<int>, hora: Option<int>, titulo: string, desc: string)
    | Edit(fechaSel: int, idx: nat, nuevoTitulo: string, nuevaDesc: string, nuevaFecha: int, nuevaHora: int)
    | Delete(fechaSel: int, idx: nat)

  lemma {:induction false} LatestFirstIsPreorder()
    ensures TotalPreorder(LatestFirst)
  {
  }

  lemma {:induction false} ByHourIsPreorder()
    ensures TotalPreorder(ByHour)
  {
  }

  lemma {:induction false} ResultSize(l: seq<Evento>, t: Tabla, p: Condition, le: Order)
    requires IsResult(l, t, p, le)
    ensures |l| == |Select(t, p)|
  {
    assert |multiset(l)| == |l| && |multiset(Select(t, p))| == |Select(t, p)|;
  }
}
