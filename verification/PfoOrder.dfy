/** The order in which font_write lays glyphs out: a rearrangement that keeps what the font defines. */
module PfoOrder {
  import opened PfoFont
  import opened PfoWriter
  import opened Sorting

  /** The written order is a rearrangement. */
  lemma OrderHolds(glyphs: seq<Glyph>, g: Glyph)
    requires HaveCodepoints(glyphs)
    ensures g in WriteOrder(glyphs) <==> g in glyphs
  {
    var keyed := ByFirst(glyphs);
    var s := SortByKey(keyed);
    var x: (nat, Glyph) := (if g.codepoints == [] then 0 else g.codepoints[0] as nat, g);
    SortHolds(keyed, x);
    if g in WriteOrder(glyphs) {
      var i :| 0 <= i < |s| && s[i].1 == g;
      SortHolds(keyed, s[i]);
      var k :| 0 <= k < |keyed| && keyed[k] == s[i];
      assert glyphs[k] == g;
    }
    if g in glyphs {
      var k :| 0 <= k < |glyphs| && glyphs[k] == g;
      assert keyed[k] == x;
      var i :| 0 <= i < |s| && s[i] == x;
      assert WriteOrder(glyphs)[i] == g;
    }
  }

  lemma {:induction false} TotalsConcat(a: seq<Glyph>, b: seq<Glyph>)
    ensures CodepointCount(a + b) == CodepointCount(a) + CodepointCount(b)
    ensures DataLength(a + b) == DataLength(a) + DataLength(b)
  {
    if b == [] {
      assert a + b == a;
    } else {
      var n := |b| - 1;
      TotalsConcat(a, b[..n]);
      assert (a + b)[..|a| + n] == a + b[..n];
    }
  }

  lemma TotalsOne(g: Glyph)
    ensures CodepointCount([g]) == |g.codepoints| && DataLength([g]) == |g.data|
  {
    assert [g][..0] == [];
  }

  lemma {:induction false} TotalsInsert(x: Keyed<Glyph>, s: seq<Keyed<Glyph>>)
    ensures CodepointCount(Values(Insert(x, s))) == |x.1.codepoints| + CodepointCount(Values(s))
    ensures DataLength(Values(Insert(x, s))) == |x.1.data| + DataLength(Values(s))
  {
    hide CodepointCount, DataLength;
    TotalsOne(x.1);
    if s == [] || x.0 <= s[0].0 {
      assert Values([x] + s) == [x.1] + Values(s);
      TotalsConcat([x.1], Values(s));
    } else {
      TotalsInsert(x, s[1..]);
      TotalsOne(s[0].1);
      assert Values([s[0]] + Insert(x, s[1..])) == [s[0].1] + Values(Insert(x, s[1..]));
      TotalsConcat([s[0].1], Values(Insert(x, s[1..])));
      assert Values(s) == [s[0].1] + Values(s[1..]);
      TotalsConcat([s[0].1], Values(s[1..]));
    }
  }

  lemma {:induction false} TotalsSort(s: seq<Keyed<Glyph>>)
    ensures CodepointCount(Values(SortByKey(s))) == CodepointCount(Values(s))
    ensures DataLength(Values(SortByKey(s))) == DataLength(Values(s))
  {
    hide CodepointCount, DataLength, Insert;
    if s != [] {
      TotalsSort(s[1..]);
      TotalsInsert(s[0], SortByKey(s[1..]));
      TotalsOne(s[0].1);
      assert Values(s) == [s[0].1] + Values(s[1..]);
      TotalsConcat([s[0].1], Values(s[1..]));
    }
  }

  lemma {:induction false} PlacedTotals(gs: seq<Glyph>)
    ensures |Placed(gs)| == CodepointCount(gs) && |TableOf(gs)| == 4 + DataLength(gs)
  {
    if gs != [] {
      PlacedTotals(gs[..|gs| - 1]);
    }
  }

  /** The index has one item per codepoint, and the table all the glyph bytes. */
  lemma WrittenTotals(glyphs: seq<Glyph>)
    requires HaveCodepoints(glyphs)
    ensures |Placed(WriteOrder(glyphs))| == CodepointCount(glyphs)
    ensures |TableOf(WriteOrder(glyphs))| == 4 + DataLength(glyphs)
  {
    hide CodepointCount, DataLength, SortByKey, Placed, TableOf;
    TotalsSort(ByFirst(glyphs));
    assert Values(ByFirst(glyphs)) == glyphs;
    PlacedTotals(WriteOrder(glyphs));
  }

  /** The glyph shares no codepoint with these. */
  ghost predicate Apart(g: Glyph, gs: seq<Glyph>) {
    forall i, cp :: 0 <= i < |gs| && cp in gs[i].codepoints ==> cp !in g.codepoints
  }

  lemma ProperCons(g: Glyph, gs: seq<Glyph>)
    ensures ProperFont([g] + gs) <==> ProperFont(gs) && g.codepoints != [] && NoRepeats(g.codepoints) && Apart(g, gs)
  {
    hide NoRepeats, ProperFont, Apart;
    if ProperFont([g] + gs) {
      ProperTail(g, gs);
    }
    if ProperFont(gs) && g.codepoints != [] && NoRepeats(g.codepoints) && Apart(g, gs) {
      ProperPush(g, gs);
    }
  }

  lemma ProperTail(g: Glyph, gs: seq<Glyph>)
    requires ProperFont([g] + gs)
    ensures ProperFont(gs) && g.codepoints != [] && NoRepeats(g.codepoints) && Apart(g, gs)
  {
    hide NoRepeats;
    var s := [g] + gs;
    assert s[0] == g && forall i :: 0 <= i < |gs| ==> s[i + 1] == gs[i];
    forall i, j, cp | 0 <= i < |gs| && 0 <= j < |gs| && cp in gs[i].codepoints
        && cp in gs[j].codepoints
      ensures i == j
    {
      assert s[i + 1] == gs[i] && s[j + 1] == gs[j];
    }
    forall i, cp | 0 <= i < |gs| && cp in gs[i].codepoints ensures cp !in g.codepoints {
      assert s[i + 1] == gs[i];
    }
  }

  lemma ProperPush(g: Glyph, gs: seq<Glyph>)
    requires ProperFont(gs) && g.codepoints != [] && NoRepeats(g.codepoints) && Apart(g, gs)
    ensures ProperFont([g] + gs)
  {
    hide NoRepeats;
    var s := [g] + gs;
    assert s[0] == g && forall i :: 0 < i < |s| ==> s[i] == gs[i - 1];
    forall i, j, cp | 0 <= i < |s| && 0 <= j < |s| && cp in s[i].codepoints && cp in s[j].codepoints ensures i == j {
      if i > 0 {
        assert gs[i - 1] == s[i];
      }
      if j > 0 {
        assert gs[j - 1] == s[j];
      }
    }
  }

  lemma {:induction false} ApartInsert(g: Glyph, x: Keyed<Glyph>, s: seq<Keyed<Glyph>>)
    ensures Apart(g, Values(Insert(x, s))) <==> Apart(g, [x.1] + Values(s))
  {
    hide Insert;
    var a, b := Values(Insert(x, s)), [x.1] + Values(s);
    InsertBag(x, s);
    forall h ensures h in a <==> h in b {
      ValuesHold(Insert(x, s), h);
      ValuesHold(s, h);
      forall y ensures y in Insert(x, s) <==> y == x || y in s {
        InsertHas(x, s, y);
      }
    }
    assert Apart(g, a) <==> forall h :: h in a ==> forall cp :: cp in h.codepoints ==> cp !in g.codepoints;
    assert Apart(g, b) <==> forall h :: h in b ==> forall cp :: cp in h.codepoints ==> cp !in g.codepoints;
  }

  lemma ValuesHold(s: seq<Keyed<Glyph>>, h: Glyph)
    ensures h in Values(s) <==> exists x :: x in s && x.1 == h
  {
    if h in Values(s) {
      var i :| 0 <= i < |s| && Values(s)[i] == h;
      assert s[i] in s;
    }
    if x :| x in s && x.1 == h {
      var i :| 0 <= i < |s| && s[i] == x;
      assert Values(s)[i] == h;
    }
  }

  lemma {:induction false} ProperInsert(x: Keyed<Glyph>, s: seq<Keyed<Glyph>>)
    ensures ProperFont(Values(Insert(x, s))) <==> ProperFont([x.1] + Values(s))
  {
    hide ProperFont, Apart, NoRepeats;
    if s == [] || x.0 <= s[0].0 {
      assert Values([x] + s) == [x.1] + Values(s);
    } else {
      var g, rest, more := s[0].1, Values(s[1..]), Values(Insert(x, s[1..]));
      assert Values(Insert(x, s)) == [g] + more && Values(s) == [g] + rest;
      ProperInsert(x, s[1..]);
      ApartInsert(g, x, s[1..]);
      ProperCons(g, more);
      ProperCons(g, rest);
      ProperCons(x.1, rest);
      ProperCons(x.1, [g] + rest);
      ApartCons(g, x.1, rest);
      ApartCons(x.1, g, rest);
    }
  }

  lemma ApartCons(g: Glyph, h: Glyph, gs: seq<Glyph>)
    ensures Apart(g, [h] + gs) <==> Apart(g, gs) && forall cp :: cp in h.codepoints ==> cp !in g.codepoints
  {
    var s := [h] + gs;
    assert s[0] == h && forall i :: 0 <= i < |gs| ==> s[i + 1] == gs[i];
    if Apart(g, s) {
      forall i, cp | 0 <= i < |gs| && cp in gs[i].codepoints ensures cp !in g.codepoints {
        assert s[i + 1] == gs[i];
      }
    }
  }

  lemma {:induction false} ProperSort(s: seq<Keyed<Glyph>>)
    ensures ProperFont(Values(SortByKey(s))) <==> ProperFont(Values(s))
  {
    hide ProperFont, Apart, NoRepeats, Insert;
    if s != [] {
      ProperSort(s[1..]);
      ProperInsert(s[0], SortByKey(s[1..]));
      assert Values(s) == [s[0].1] + Values(s[1..]);
      ProperCons(s[0].1, Values(s[1..]));
      ProperCons(s[0].1, Values(SortByKey(s[1..])));
      ApartSort(s[0].1, s[1..]);
    }
  }

  lemma {:induction false} ApartSort(g: Glyph, s: seq<Keyed<Glyph>>)
    ensures Apart(g, Values(SortByKey(s))) <==> Apart(g, Values(s))
  {
    hide Insert;
    if s != [] {
      ApartSort(g, s[1..]);
      ApartInsert(g, s[0], SortByKey(s[1..]));
      assert Values(s) == [s[0].1] + Values(s[1..]);
      ApartCons(g, s[0].1, Values(s[1..]));
      ApartCons(g, s[0].1, Values(SortByKey(s[1..])));
    }
  }

  lemma ProperOrder(glyphs: seq<Glyph>)
    requires HaveCodepoints(glyphs) && ProperFont(glyphs)
    ensures ProperFont(WriteOrder(glyphs))
  {
    hide ProperFont, SortByKey;
    assert Values(ByFirst(glyphs)) == glyphs;
    ProperSort(ByFirst(glyphs));
  }

  /** The glyphs are written in ascending order of their first codepoints, each as often as the font has it. */
  lemma OrderAscends(glyphs: seq<Glyph>, i: nat, j: nat)
    requires HaveCodepoints(glyphs) && i < j < |glyphs|
    ensures |WriteOrder(glyphs)| == |glyphs|
    ensures var gs := WriteOrder(glyphs);
            && gs[i].codepoints != [] && gs[j].codepoints != [] && gs[i].codepoints[0] <= gs[j].codepoints[0]
  {
    hide SortByKey;
    var keyed := ByFirst(glyphs);
    SortSorts(keyed);
    SortedAt(SortByKey(keyed), i, j);
    KeyIsFirst(glyphs, i);
    KeyIsFirst(glyphs, j);
  }

  lemma KeyIsFirst(glyphs: seq<Glyph>, i: nat)
    requires HaveCodepoints(glyphs) && i < |glyphs|
    ensures var e, gs := SortByKey(ByFirst(glyphs))[i], WriteOrder(glyphs);
            |gs| == |glyphs| && gs[i].codepoints != [] && e.0 == gs[i].codepoints[0] as nat
  {
    hide SortByKey;
    var keyed := ByFirst(glyphs);
    SortHolds(keyed, SortByKey(keyed)[i]);
    var k :| 0 <= k < |keyed| && keyed[k] == SortByKey(keyed)[i];
  }
}
