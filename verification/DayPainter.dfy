/**
 The calendar painting of `VistaPrincipal.highlightEventDays`: reset every button of the day panel, paint
 the days with events, then mark the selected day. The panel also holds other components and buttons
 that are no days.
 */
module DayPainter {
  import opened Decimal

  datatype Component = Button(text: string) | Other

  /** `CalendarColour`: whatever background the calendar has. */
  datatype Colour = CalendarColour | Rgb(r: int, g: int, b: int)

  datatype Border = NoBorder | Line(colour: Colour, width: int) | AnyBorder(id: int)

  datatype Look = Look(opaqueFlag: bool, background: Colour, border: Border)

  const RESET := Look(false, CalendarColour, NoBorder)
  const GREEN := Look(true, Rgb(135, 178, 158), NoBorder)
  const SELECTED := Look(true, Rgb(255, 223, 127), Line(Rgb(255, 180, 50), 2))

  datatype Fecha = Fecha(year: int, month: int, day: nat)

  /** The first button with a text; the length of the panel if there is none. */
  function FirstWith(comps: seq<Component>, text: string): (i: nat)
    ensures i <= |comps|
    ensures i < |comps| ==> comps[i] == Button(text)
    ensures forall j :: 0 <= j < i ==> comps[j] != Button(text)
  {
    if comps == [] then 0
    else
      var n := |comps| - 1;
      var i := FirstWith(comps[..n], text);
      if i < n then i else if comps[n] == Button(text) then n else n + 1
  }

  predicate InMonth(e: Fecha, year: int, month: int) {
    e.year == year && e.month == month
  }

  /** Button `i` is the one painted for some event of the shown month among the first `k`. */
  ghost predicate EventAt(comps: seq<Component>, eventos: seq<Fecha>, k: nat, year: int, month: int, i: nat) {
    exists j :: 0 <= j < k <= |eventos| && InMonth(eventos[j], year, month)
                && FirstWith(comps, Numeral(eventos[j].day)) == i
  }

  /** What the panel looks like after the events have been painted over a reset. */
  ghost predicate EventsPainted(comps: seq<Component>, before: seq<Look>, looks: seq<Look>, eventos: seq<Fecha>,
                                k: nat, year: int, month: int)
  {
    && |looks| == |before| == |comps|
    && forall i :: 0 <= i < |comps| ==>
         looks[i] == if comps[i].Other? then before[i]
                     else if EventAt(comps, eventos, k, year, month, i) then GREEN
                     else RESET
  }

  /** The whole painting: selection over events over reset; other components as before. */
  ghost predicate Painted(comps: seq<Component>, before: seq<Look>, looks: seq<Look>, eventos: seq<Fecha>, shown: Fecha)
  {
    && |looks| == |before| == |comps|
    && forall i :: 0 <= i < |comps| ==>
         looks[i] == if comps[i].Other? then before[i]
                     else if i == FirstWith(comps, Numeral(shown.day)) then SELECTED
                     else if EventAt(comps, eventos, |eventos|, shown.year, shown.month, i) then GREEN
                     else RESET
  }

  /** The inner loop of both painting phases: scan for the text, paint the first match, break. */
  method PaintFirst(comps: seq<Component>, looks: array<Look>, text: string, opaqueFlag: bool, background: Colour,
                    border: Border, setBorder: bool)
    requires looks.Length == |comps|
    modifies looks
    ensures forall i :: 0 <= i < |comps| ==>
              looks[i] == if i == FirstWith(comps, text)
                          then Look(opaqueFlag, background, if setBorder then border else old(looks[i]).border)
                          else old(looks[i])
  {
    var i := 0;
    while i < |comps|
      invariant 0 <= i <= |comps|
      invariant forall j :: 0 <= j < i ==> comps[j] != Button(text)
      invariant forall j :: 0 <= j < |comps| ==> looks[j] == old(looks[j])
    {
      if comps[i] == Button(text) {
        looks[i] := Look(opaqueFlag, background, if setBorder then border else looks[i].border);
        break;
      }
      i := i + 1;
    }
    assert i == FirstWith(comps, text);
  }

  /** `highlightEventDays`, for the selected date `shown` and the user's full listing. */
  method HighlightEventDays(comps: seq<Component>, looks: array<Look>, eventos: seq<Fecha>, shown: Fecha)
    requires looks.Length == |comps|
    modifies looks
    ensures Painted(comps, old(looks[..]), looks[..], eventos, shown)
  {
    ghost var before := looks[..];
    var i := 0;
    while i < |comps|
      invariant 0 <= i <= |comps|
      invariant forall j :: 0 <= j < |comps| ==>
                  looks[j] == if j < i && comps[j].Button? then RESET else before[j]
    {
      if comps[i].Button? {
        looks[i] := RESET;
      }
      i := i + 1;
    }
    var k := 0;
    while k < |eventos|
      invariant 0 <= k <= |eventos|
      invariant EventsPainted(comps, before, looks[..], eventos, k, shown.year, shown.month)
    {
      ghost var was := looks[..];
      if InMonth(eventos[k], shown.year, shown.month) {
        PaintFirst(comps, looks, Numeral(eventos[k].day), true, Rgb(135, 178, 158), NoBorder, false);
      }
      OneMoreEvent(comps, before, was, looks[..], eventos, k, shown.year, shown.month);
      k := k + 1;
    }
    PaintFirst(comps, looks, Numeral(shown.day), true, Rgb(255, 223, 127), Line(Rgb(255, 180, 50), 2), true);
  }

  lemma {:induction false} OneMoreEvent(comps: seq<Component>, before: seq<Look>, was: seq<Look>, now: seq<Look>,
                                        eventos: seq<Fecha>, k: nat, year: int, month: int)
    requires k < |eventos| && EventsPainted(comps, before, was, eventos, k, year, month)
    requires |now| == |comps|
    requires forall i :: 0 <= i < |comps| ==>
               now[i] == if InMonth(eventos[k], year, month) && i == FirstWith(comps, Numeral(eventos[k].day))
                         then Look(true, Rgb(135, 178, 158), was[i].border) else was[i]
    ensures EventsPainted(comps, before, now, eventos, k + 1, year, month)
  {
    forall i | 0 <= i < |comps|
      ensures EventAt(comps, eventos, k + 1, year, month, i)
              <==> EventAt(comps, eventos, k, year, month, i)
                   || (InMonth(eventos[k], year, month) && FirstWith(comps, Numeral(eventos[k].day)) == i)
    {
    }
  }

  // ---------------------------------------------------------------- what the user sees

  /** The button's text is that of a day: digits without a leading zero that read back to `d`. */
  predicate IsDay(c: Component, d: nat) {
    c.Button? && Canonical(c.text) && Value(c.text) == d
  }

  /** No day of the month has two buttons. */
  ghost predicate DistinctDays(comps: seq<Component>) {
    forall i, j :: 0 <= i < j < |comps| && comps[i].Button? && Canonical(comps[i].text) ==> comps[j] != comps[i]
  }

  /** With distinct day labels, the first button with a number's numeral is the one whose text reads back to it. */
  lemma {:induction false} FirstWithDay(comps: seq<Component>, i: nat, d: nat, e: nat)
    requires DistinctDays(comps) && i < |comps| && IsDay(comps[i], d)
    ensures FirstWith(comps, Numeral(e)) == i <==> e == d
  {
    NumeralIff(e, comps[i].text);
    var f := FirstWith(comps, Numeral(e));
    if e == d {
      assert f <= i;
    }
  }

  /**
   With distinct day labels, for any events in any order and any previous painting, a button that reads `d`:
   the selected day is yellow with an orange line, every other day green exactly when an event of the shown
   month falls on it, and in the calendar's own look otherwise.
   */
  lemma {:induction false} DaysPaintedRight(comps: seq<Component>, before: seq<Look>, looks: seq<Look>,
                                            eventos: seq<Fecha>, shown: Fecha, i: nat, d: nat)
    requires Painted(comps, before, looks, eventos, shown) && DistinctDays(comps)
    requires i < |comps| && IsDay(comps[i], d)
    ensures looks[i] == if d == shown.day then Look(true, Rgb(255, 223, 127), Line(Rgb(255, 180, 50), 2))
                        else if Fecha(shown.year, shown.month, d) in eventos
                        then Look(true, Rgb(135, 178, 158), NoBorder)
                        else Look(false, CalendarColour, NoBorder)
  {
    forall e: nat ensures FirstWith(comps, Numeral(e)) == i <==> e == d {
      FirstWithDay(comps, i, d, e);
    }
    if Fecha(shown.year, shown.month, d) in eventos {
      var j :| 0 <= j < |eventos| && eventos[j] == Fecha(shown.year, shown.month, d);
      assert InMonth(eventos[j], shown.year, shown.month) && FirstWith(comps, Numeral(eventos[j].day)) == i;
    }
  }

  /** Buttons whose text is no day's, and everything that is no button, end up reset and untouched respectively. */
  lemma {:induction false} OthersReset(comps: seq<Component>, before: seq<Look>, looks: seq<Look>,
                                       eventos: seq<Fecha>, shown: Fecha, i: nat)
    requires Painted(comps, before, looks, eventos, shown) && i < |comps|
    requires comps[i].Button? ==> !Canonical(comps[i].text)
    ensures looks[i] == if comps[i].Button? then Look(false, CalendarColour, NoBorder) else before[i]
  {
    if comps[i].Button? {
      forall e: nat ensures FirstWith(comps, Numeral(e)) != i {
        NumeralIff(e, comps[i].text);
      }
    }
  }
}
