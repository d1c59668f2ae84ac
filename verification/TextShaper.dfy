/** runtime/text_shaper.c, lines 97-184: shape_text on the buffer, proved against the neighbour rule. */
module TextShaper {
  import opened Runes
  import opened Utf8
  import opened RtlRanges
  import opened Buffer
  import opened ShaperTable
  import opened ShaperSpec
  import opened ShaperSteps

  datatype ShaperState = STATE_INITIAL | STATE_MEDIAL

  /** The C string at `p`: the text `rs`, then a NUL. */
  ghost predicate CString(b: seq<byte>, p: seq<byte>, rs: seq<Rune>, q: seq<byte>) {
    Holds(b, p, rs, q) && ValidText(rs) && q != [] && q[0] == 0
  }

  /** An index into the table as the C code keeps it: -1 for NULL. */
  ghost predicate EntryIndex(t: Tables, cp: uint16, k: int) {
    if Letter(t, cp) then k == FirstEntry(t.lut, cp) else k == -1
  }

  /** Lines 118-135: the next rune is read, and tried as the second half of a ligature. */
  method ReadForward(a: array<byte>, t: Tables, ptr: nat, thisCp: uint16, ghost p: seq<byte>, ghost rs: seq<Rune>,
                     ghost cur: seq<Rune>, ghost i: int, ghost q: seq<byte>)
    returns (nextCp: uint16, nextLut: int, ptrNext: nat, ligature: bool)
    requires Usable(t) && Holds(a[..], p, cur, q) && ValidText(rs) && q != [] && q[0] == 0
    requires -1 <= i <= |rs| == |cur| && Sizes(cur) == Sizes(rs)
    requires i + 1 < |rs| ==> cur[i + 1] == rs[i + 1]
    requires thisCp == if 0 <= i < |rs| then Held(t, Codes(rs), i) else 0
    requires ptr == Pos(p, rs, if i < |rs| then i + 1 else i)
    ensures i + 1 < |rs| ==> nextCp == Held(t, Codes(rs), i + 1) > 0 && ptrNext == Pos(p, rs, i + 2)
    ensures i + 1 >= |rs| ==> nextCp == 0 && ptrNext == Pos(p, rs, |rs|)
    ensures EntryIndex(t, nextCp, nextLut)
    ensures ligature <==> 0 <= i < |rs| && IsHead(t, Codes(rs), i)
  {
    ghost var c := Codes(rs);
    assert a.Length == |a[..]|;
    SamePos(p, cur, rs, if i < |rs| then i + 1 else i);
    ligature := false;
    if i + 1 < |rs| {
      NoNul(p, cur, q, i + 1);
      SamePos(p, cur, rs, i + 2);
      assert ValidRune(rs[i + 1]);
    } else {
      assert cur[..|rs|] == cur;
      assert a[ptr] == a[..][ptr] == q[0];
    }
    if a[ptr] != 0 {
      nextCp, ptrNext := ReadRune(a, ptr, p, cur, i + 1, q);
      var ligCodept := FindLigatureByCodepts(t.ligatures, thisCp, nextCp);
      if i >= 0 {
        HeldFindsTail(t, c, i);
      } else {
        ZeroIsNothing(t, nextCp);
      }
      if ligCodept != 0 {
        nextCp := ligCodept;
        ligature := true;
      }
      WidthOfCode(rs[i + 1]);
      nextLut := FindLutEntryByCodept(t, nextCp);
    } else {
      ZeroIsNothing(t, 0);
      nextCp, ptrNext, nextLut := 0, ptr, -1;
    }
  }

  /** write_utf8 over rune `i` of a text. */
  method Put(a: array<byte>, pos: nat, codept: int, ghost p: seq<byte>, ghost rs: seq<Rune>, ghost cur: seq<Rune>,
             ghost i: nat, ghost q: seq<byte>)
    requires Holds(a[..], p, cur, q) && i < |cur| && |cur[i]| == 2 && Sizes(cur) == Sizes(rs) && |cur| == |rs|
    requires pos == Pos(p, rs, i)
    modifies a
    ensures Holds(a[..], p, cur[i := Encode2(codept % 0x10000)], q)
  {
    SamePos(p, cur, rs, i);
    WriteRune(a, pos, codept % 0x10000, p, cur, i, q);
  }

  /** The loop's variables when rune `i` is about to be shaped; before the first rune, `i` is -1. */
  ghost predicate State(t: Tables, rs: seq<Rune>, i: int, p: seq<byte>, cur: seq<Rune>, late: int, state: ShaperState,
                        latePtr: Ptr, lateLut: int) {
    && i >= -1 && Inv(t, rs, if i < 0 then 0 else i, cur, late)
    && (state.STATE_MEDIAL? <==> late >= 0)
    && (latePtr.At? <==> late >= 0)
    && (late >= 0 ==> latePtr.pos == Pos(p, rs, late) && EntryIndex(t, Contracted(t, Codes(rs))[late], lateLut))
  }

  /** Lines 137-182: the rune held is written in its form, its successor known. */
  method Act(a: array<byte>, t: Tables, thisCp: uint16, thisPos: nat, thisLut: int, nextCp: uint16, nextLut: int,
             ligature: bool, stateIn: ShaperState, lateIn: Ptr, lateLutIn: int, ghost p: seq<byte>,
             ghost rs: seq<Rune>, ghost curIn: seq<Rune>, ghost i: int, ghost late: int, ghost q: seq<byte>)
    returns (state: ShaperState, latePtr: Ptr, lateLut: int, ghost cur: seq<Rune>, ghost lateOut: int)
    requires Usable(t) && ValidText(rs) && i <= |rs|
    requires State(t, rs, i, p, curIn, late, stateIn, lateIn, lateLutIn) && Holds(a[..], p, curIn, q)
    requires 0 <= i < |rs| ==> thisCp == Held(t, Codes(rs), i) > 0 && thisPos == Pos(p, rs, i)
    requires i < 0 || i == |rs| ==> thisCp == 0
    requires nextCp == if i + 1 < |rs| then Held(t, Codes(rs), i + 1) else 0
    requires EntryIndex(t, thisCp, thisLut) && EntryIndex(t, nextCp, nextLut)
    requires ligature <==> 0 <= i < |rs| && IsHead(t, Codes(rs), i)
    modifies a
    ensures Holds(a[..], p, cur, q)
    ensures i < |rs| ==> State(t, rs, i + 1, p, cur, lateOut, state, latePtr, lateLut)
    ensures i == |rs| ==> cur == ShapedText(t, rs)
  {
    hide Inv, Contracted, Code, LigatureOf, IsTail, FirstEntry, EndsWord, ShapedText;
    state, latePtr, lateLut, cur, lateOut := stateIn, lateIn, lateLutIn, curIn, late;
    ghost var c := Codes(rs);
    ghost var e := Contracted(t, c);
    InvFacts(t, rs, if i < 0 then 0 else i, cur, late);
    if 0 <= i < |rs| && !IsHead(t, c, i) {
      HeldIsContracted(t, c, i);
      HeldNext(t, c, i);
      LookaheadAgrees(t, c, i);
    }
    ZeroIsNothing(t, 0);
    if ligature {
      StepHead(t, rs, i, cur, late);
      Put(a, thisPos, ZERO_WIDTH_CODEPT, p, rs, cur, i, q);
      cur := cur[i := Encode2(ZERO_WIDTH_CODEPT)];
    } else if IsZeroWidth(thisCp) {
      StepMark(t, rs, i, cur, late);
    } else if thisLut >= 0 {
      var entry := t.lut[thisLut];
      if (nextLut < 0 && !IsZeroWidth(nextCp)) || (entry.dMed == entry.dFin && entry.dFin != 0) {
        StepEnd(t, rs, i, cur, late);
        var form := if state.STATE_INITIAL? then entry.iso else entry.iso + entry.dFin;
        Put(a, thisPos, form, p, rs, cur, i, q);
        cur, lateOut := cur[i := Encode2(form % 0x10000)], -1;
        latePtr, state := Null, STATE_INITIAL;
      } else {
        StepJoin(t, rs, i, cur, late);
        var form := if state.STATE_INITIAL? then entry.iso + entry.dIni else entry.iso + entry.dMed;
        Put(a, thisPos, form, p, rs, cur, i, q);
        cur, lateOut := cur[i := Encode2(form % 0x10000)], i;
        latePtr, lateLut, state := At(thisPos), thisLut, STATE_MEDIAL;
      }
    } else {
      if i >= 0 {
        StepOther(t, rs, i, cur, late);
      }
      if latePtr.At? {
        var entry := t.lut[lateLut];
        var form := if state.STATE_INITIAL? then entry.iso else entry.iso + entry.dFin;
        Put(a, latePtr.pos, form, p, rs, cur, late, q);
      }
      cur, lateOut := Finalized(t, rs, cur, late), -1;
      latePtr, state := Null, STATE_INITIAL;
    }
  }

  lemma InvFacts(t: Tables, rs: seq<Rune>, i: nat, cur: seq<Rune>, late: int)
    requires Inv(t, rs, i, cur, late)
    ensures -1 <= late < i <= |rs| == |cur| && Sizes(cur) == Sizes(rs)
    ensures late >= 0 ==> Letter(t, Contracted(t, Codes(rs))[late])
  {}

  lemma HeldNext(t: Tables, c: seq<uint16>, i: nat)
    requires i < |c| && !IsHead(t, c, i)
    ensures i + 1 < |c| ==> Held(t, c, i + 1) == c[i + 1]
  {}

  lemma Start(t: Tables, rs: seq<Rune>, p: seq<byte>)
    ensures State(t, rs, -1, p, rs, -1, STATE_INITIAL, Null, -1)
  {}

  /** shape_text leaves every rune in the form the neighbour rule gives, and nothing else changed. */
  method ShapeText(a: array<byte>, text: nat, t: Tables, ghost p: seq<byte>, ghost rs: seq<Rune>, ghost q: seq<byte>)
    requires Usable(t) && CString(a[..], p, rs, q) && text == |p|
    modifies a
    ensures CString(a[..], p, ShapedText(t, rs), q)
  {
    hide Inv, Contracted, Code, LigatureOf, IsTail, FirstEntry, EndsWord, ShapedText;
    ShapedIsValid(t, rs);
    ZeroIsNothing(t, 0);
    Start(t, rs, p);
    assert rs[..0] == [];
    ghost var cur, late, i := rs, -1, -1;
    var state, latePtr, lateLut := STATE_INITIAL, Null, -1;
    var nextCp: uint16, nextPos, nextLut, ptr := 0, text, -1, text;
    var going := true;
    while going
      invariant Holds(a[..], p, cur, q)
      invariant going ==> i <= |rs| && State(t, rs, i, p, cur, late, state, latePtr, lateLut)
      invariant going ==> EntryIndex(t, nextCp, nextLut) && ptr == Pos(p, rs, if i < |rs| then i + 1 else i)
      invariant going && 0 <= i < |rs| ==> nextCp == Held(t, Codes(rs), i) > 0 && nextPos == Pos(p, rs, i)
      invariant going && (i < 0 || i == |rs|) ==> nextCp == 0
      invariant !going ==> cur == ShapedText(t, rs)
      decreases |rs| - i, going
    {
      var thisCp, thisPos, thisLut := nextCp, nextPos, nextLut;
      Untouched(t, rs, i, cur, late);
      nextPos := ptr;
      var ligature;
      nextCp, nextLut, ptr, ligature := ReadForward(a, t, ptr, thisCp, p, rs, cur, i, q);
      state, latePtr, lateLut, cur, late :=
        Act(a, t, thisCp, thisPos, thisLut, nextCp, nextLut, ligature, state, latePtr, lateLut, p, rs, cur, i, late, q);
      going := thisCp != 0 || nextCp != 0;
      i := i + 1;
    }
  }

  lemma Untouched(t: Tables, rs: seq<Rune>, i: int, cur: seq<Rune>, late: int)
    requires -1 <= i && Inv(t, rs, if i < 0 then 0 else i, cur, late)
    ensures i <= |rs| == |cur| && Sizes(cur) == Sizes(rs)
    ensures i + 1 < |rs| ==> cur[i + 1] == rs[i + 1]
    ensures rs == [] ==> cur == ShapedText(t, rs)
  {}
}
