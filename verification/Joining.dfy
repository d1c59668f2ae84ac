/** Without zero-width marks the shaper joins letters as cursive scripts do: see section 9.2 of the Unicode Standard. */
module Joining {
  import opened Runes
  import opened RtlRanges
  import opened ShaperTable
  import opened ShaperSpec

  /** What a reader sees: ligatures contracted from the left, each to one letter. */
  function Letters(t: Tables, c: seq<uint16>): seq<uint16>
    decreases |c|
  {
    if |c| < 2 then c
    else if LigatureOf(t.ligatures, c[0], c[1]) != 0 then [LigatureOf(t.ligatures, c[0], c[1])] + Letters(t, c[2..])
    else [c[0]] + Letters(t, c[1..])
  }

  /** The classic rule: whether the letters on either side reach out to this one picks one of four forms. */
  function JoinedForm(t: Tables, l: seq<uint16>, k: nat): int
    requires k < |l|
  {
    if !Letter(t, l[k]) then l[k]
    else
      var entry := EntryOf(t, l[k]);
      var before := k > 0 && JoinsForward(t, l[k - 1]);
      var after := JoinsForward(t, l[k]) && k + 1 < |l| && Letter(t, l[k + 1]);
      match (before, after)
      case (false, false) => entry.iso
      case (false, true) => entry.Initial()
      case (true, true) => entry.Medial()
      case (true, false) => entry.Final()
  }

  function Visible(e: seq<uint16>): seq<uint16> {
    if e == [] then []
    else if IsZeroWidth(e[0]) then Visible(e[1..])
    else [e[0]] + Visible(e[1..])
  }

  ghost predicate NoMarks(c: seq<uint16>) {
    forall k :: 0 <= k < |c| ==> !IsZeroWidth(c[k])
  }

  lemma {:induction false} VisibleConcat(a: seq<uint16>, b: seq<uint16>)
    ensures Visible(a + b) == Visible(a) + Visible(b)
  {
    if a == [] {
      assert a + b == b;
    } else {
      assert (a + b)[1..] == a[1..] + b;
      VisibleConcat(a[1..], b);
    }
  }

  lemma VisibleAt(e: seq<uint16>, k: nat)
    requires k < |e| && !IsZeroWidth(e[k])
    ensures Visible(e) == Visible(e[..k]) + [e[k]] + Visible(e[k + 1..])
  {
    assert e == e[..k] + ([e[k]] + e[k + 1..]);
    VisibleConcat(e[..k], [e[k]] + e[k + 1..]);
    assert ([e[k]] + e[k + 1..])[1..] == e[k + 1..];
  }

  /** The last visible rune before `k`. */
  lemma {:induction false} BeforeIsVisible(t: Tables, e: seq<uint16>, k: nat)
    requires k <= |e|
    ensures var v := Visible(e[..k]);
            JoinedBefore(t, e, k) <==> v != [] && JoinsForward(t, v[|v| - 1])
    decreases k
  {
    if k > 0 {
      BeforeIsVisible(t, e, k - 1);
      assert e[..k] == e[..k - 1] + [e[k - 1]];
      VisibleConcat(e[..k - 1], [e[k - 1]]);
      assert [e[k - 1]][1..] == [];
    }
  }

  /** The first visible rune behind `k`. */
  lemma {:induction false} NextIsVisible(e: seq<uint16>, k: nat)
    requires k < |e|
    ensures var v := Visible(e[k + 1..]);
            NextVisible(e, k) == if v == [] then 0 else v[0]
    decreases |e| - k
  {
    if k + 1 < |e| {
      assert e[k + 1..][0] == e[k + 1] && e[k + 1..][1..] == e[k + 2..];
      if IsZeroWidth(e[k + 1]) {
        NextIsVisible(e, k + 1);
      }
    }
  }

  /** Contraction of marks-free text hides exactly the ligature heads. */
  lemma Heads(t: Tables, c: seq<uint16>, k: nat)
    requires Usable(t) && NoMarks(c) && k < |c|
    ensures IsZeroWidth(Contracted(t, c)[k]) <==> IsHead(t, c, k)
    ensures IsHead(t, c, k) ==> k + 1 < |c| && Letter(t, Contracted(t, c)[k + 1])
  {
    if IsHead(t, c, k) {
      TailFacts(t, c, k + 1);
    } else if IsTail(t, c, k) {
      TailFacts(t, c, k);
      LetterFacts(t, Contracted(t, c)[k]);
    }
  }

  /** A letter is never left waiting: behind it stands a letter, a ligature, or the end of its word. */
  lemma WordEnds(t: Tables, c: seq<uint16>, k: nat)
    requires Usable(t) && NoMarks(c) && k < |c| && !IsHead(t, c, k)
    ensures var e := Contracted(t, c);
            EndsWord(t, e, k) <==> !Letter(t, NextVisible(e, k))
  {
    var e := Contracted(t, c);
    if Letter(t, 0) { LetterFacts(t, 0); }
    if k + 1 < |c| {
      Heads(t, c, k + 1);
      if IsHead(t, c, k + 1) {
        Heads(t, c, k + 2);
        TailFacts(t, c, k + 2);
      }
    }
  }

  /** On text without marks the streaming shaper applies the classic joining rule to what a reader sees. */
  lemma ShapesByJoining(t: Tables, c: seq<uint16>, k: nat)
    requires Usable(t) && NoMarks(c) && k < |c| && !IsHead(t, c, k)
    ensures var e := Contracted(t, c);
            var i := |Visible(e[..k])|;
            i < |Visible(e)| && Visible(e)[i] == e[k] && ShapedCode(t, e, k) == JoinedForm(t, Visible(e), i)
  {
    hide Contracted, Visible, IsHead, IsTail, JoinedBefore, EndsWord, NextVisible, FirstEntry;
    var e := Contracted(t, c);
    Heads(t, c, k);
    VisibleAt(e, k);
    BeforeIsVisible(t, e, k);
    NextIsVisible(e, k);
    WordEnds(t, c, k);
    if Letter(t, 0) { LetterFacts(t, 0); }
    var v := Visible(e);
    var before, after := Visible(e[..k]), Visible(e[k + 1..]);
    var i := |before|;
    assert v[i] == e[k];
    assert i > 0 ==> v[i - 1] == before[i - 1];
    assert i + 1 < |v| <==> after != [];
    assert after != [] ==> v[i + 1] == after[0];
  }

  lemma TailShift(t: Tables, c: seq<uint16>, n: nat, k: nat)
    requires n <= k < |c|
    requires n == 0 || (n < |c| && !IsTail(t, c, n))
    ensures IsTail(t, c[n..], k - n) == IsTail(t, c, k)
    decreases k
  {
    if k > n {
      TailShift(t, c, n, k - 1);
    }
  }

  /** What a reader sees of the contracted text is the list contracted from the left. */
  lemma {:induction false} VisibleLetters(t: Tables, c: seq<uint16>)
    requires Usable(t) && NoMarks(c)
    ensures Visible(Contracted(t, c)) == Letters(t, c)
    decreases |c|
  {
    var e := Contracted(t, c);
    if c == [] {
    } else if |c| >= 2 && LigatureOf(t.ligatures, c[0], c[1]) != 0 {
      assert IsTail(t, c, 1);
      TailFacts(t, c, 1);
      LetterFacts(t, e[1]);
      DropContracted(t, c, 2);
      VisibleLetters(t, c[2..]);
      assert e == [ZERO_WIDTH_CODEPT] + ([e[1]] + e[2..]);
      assert e[1..][1..] == e[2..];
    } else {
      assert !IsHead(t, c, 0) && e[0] == c[0];
      DropContracted(t, c, 1);
      VisibleLetters(t, c[1..]);
      if |c| == 1 {
        assert e[1..] == [];
      }
    }
  }

  lemma DropContracted(t: Tables, c: seq<uint16>, n: nat)
    requires Usable(t) && n <= |c|
    requires n < |c| ==> !IsTail(t, c, n)
    ensures Contracted(t, c)[n..] == Contracted(t, c[n..])
  {
    var d := c[n..];
    forall k | n <= k < |c| ensures Contracted(t, c)[k] == Contracted(t, d)[k - n] {
      TailShift(t, c, n, k);
      if k + 1 < |c| {
        TailShift(t, c, n, k + 1);
      }
      if k == n {
        assert !IsTail(t, d, 0);
      }
    }
  }

  /**
    * The streaming shaper and the classic joining rule agree: rune `k` of marks-free text, unless a
    * ligature swallows it, takes the form its neighbours among the letters a reader sees give it.
    */
  lemma StreamingJoins(t: Tables, c: seq<uint16>, k: nat)
    requires Usable(t) && NoMarks(c) && k < |c| && !IsHead(t, c, k)
    ensures var l, i := Letters(t, c), |Visible(Contracted(t, c)[..k])|;
            i < |l| && l[i] == Contracted(t, c)[k] && ShapedCode(t, Contracted(t, c), k) == JoinedForm(t, l, i)
  {
    ShapesByJoining(t, c, k);
    VisibleLetters(t, c);
  }

  /** A letter that joins forward, with a mark behind it and then no letter: it waits until its word has ended. */
  ghost predicate Waits(t: Tables, e: seq<uint16>, k: nat)
    requires k < |e|
  {
    && JoinsForward(t, e[k]) && k + 1 < |e| && IsZeroWidth(e[k + 1])
    && var after := Visible(e[k + 1..]); after == [] || !Letter(t, after[0])
  }

  /**
    * With marks the rule is the same, the marks left out, but for one case: a letter that waits takes its
    * final form even where nothing joins it from before.
    */
  lemma MarksJoin(t: Tables, c: seq<uint16>, k: nat)
    requires Usable(t) && k < |c| && !IsZeroWidth(Contracted(t, c)[k])
    ensures var e := Contracted(t, c);
            var v, i := Visible(e), |Visible(e[..k])|;
            && i < |v| && v[i] == e[k]
            && ShapedCode(t, e, k) == if Waits(t, e, k) then EntryOf(t, e[k]).Final() else JoinedForm(t, v, i)
  {
    hide Contracted, Visible, IsTail, JoinedBefore, NextVisible, FirstEntry;
    var e := Contracted(t, c);
    VisibleAt(e, k);
    BeforeIsVisible(t, e, k);
    NextIsVisible(e, k);
    if Letter(t, 0) { LetterFacts(t, 0); }
    var v, before, after := Visible(e), Visible(e[..k]), Visible(e[k + 1..]);
    var i := |before|;
    assert v[i] == e[k];
    assert i > 0 ==> v[i - 1] == before[i - 1];
    assert i + 1 < |v| <==> after != [];
    assert after != [] ==> v[i + 1] == after[0];
    NextIs(e, k);
  }

  lemma NextIs(e: seq<uint16>, k: nat)
    requires k < |e|
    ensures k + 1 < |e| && !IsZeroWidth(e[k + 1]) ==> Visible(e[k + 1..]) != [] && Visible(e[k + 1..])[0] == e[k + 1]
    ensures k + 1 == |e| ==> Visible(e[k + 1..]) == []
  {}
}
