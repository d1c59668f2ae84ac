/** fonts/text_shaper.py, pack_lut: assigning codepoints to glyphs and writing the shaper's tables. */
module PackLut {
  import opened Runes
  import opened Results
  import opened Packing
  import opened RtlRanges
  import opened ShaperTable

  type Glyph = int

  /** One alphabet member or ligature with the glyphs of its isolated, initial, medial and final form. */
  datatype Member = Member(key: seq<nat>, glyphs: seq<Glyph>)

  const SCRATCH_COUNT: nat := 0xD0

  /** The n-th of the available codepoints: two recycled blocks, in order. */
  function ScratchAt(n: nat): (cp: uint16)
    requires n < SCRATCH_COUNT
    ensures IsScratch(cp)
  {
    if n < 0x50 then 0x700 + n else 0x780 + (n - 0x50)
  }

  /** The codepoints handed out so far. */
  function Taken(n: nat): (d: seq<uint16>)
    requires n <= SCRATCH_COUNT
    ensures |d| == n
  {
    seq(n, i requires 0 <= i < n => ScratchAt(i))
  }

  /** struct.pack("<HHbbb", ...) of one row. */
  function PackEntry(e: Entry): (b: seq<byte>)
    ensures |b| == 7
  {
    PackH(e.trueCp) + PackH(e.iso) + [e.dIni % 0x100, e.dMed % 0x100, e.dFin % 0x100]
  }

  function Signed(b: byte): int8 {
    if b < 0x80 then b else b - 0x100
  }

  /** The row as the runtime's packed struct lies over the bytes. */
  function ReadEntry(b: seq<byte>): Entry
    requires |b| == 7
  {
    Entry(UnpackH(b[..2]), UnpackH(b[2..4]), Signed(b[4]), Signed(b[5]), Signed(b[6]))
  }

  function ReadLut(b: seq<byte>): seq<Entry> {
    if |b| < 7 then [] else [ReadEntry(b[..7])] + ReadLut(b[7..])
  }

  function ReadHalves(b: seq<byte>): seq<uint16> {
    if |b| < 2 then [] else [UnpackH(b[..2])] + ReadHalves(b[2..])
  }

  lemma ReadPackEntry(e: Entry)
    ensures ReadEntry(PackEntry(e)) == e
  {
    var b := PackEntry(e);
    assert b[..2] == PackH(e.trueCp) && b[2..4] == PackH(e.iso);
    UnpackPackH(e.trueCp);
    UnpackPackH(e.iso);
  }

  lemma {:induction false} ReadLutAppend(b: seq<byte>, e: Entry)
    requires |b| % 7 == 0
    ensures ReadLut(b + PackEntry(e)) == ReadLut(b) + [e]
    decreases |b|
  {
    var c := b + PackEntry(e);
    if |b| == 0 {
      ReadPackEntry(e);
      assert c == PackEntry(e) && c[..7] == c && c[7..] == [];
    } else {
      ReadLutAppend(b[7..], e);
      assert c[..7] == b[..7] && c[7..] == b[7..] + PackEntry(e);
    }
  }

  lemma {:induction false} ReadHalvesAppend(b: seq<byte>, v: uint16)
    requires |b| % 2 == 0
    ensures ReadHalves(b + PackH(v)) == ReadHalves(b) + [v]
    decreases |b|
  {
    var c := b + PackH(v);
    if |b| == 0 {
      UnpackPackH(v);
      assert c == PackH(v) && c[..2] == c && c[2..] == [];
    } else {
      ReadHalvesAppend(b[2..], v);
      assert c[..2] == b[..2] && c[2..] == b[2..] + PackH(v);
    }
  }

  datatype Packed = Packed(lutData: seq<byte>, ligData: seq<byte>, selected: map<Glyph, uint16>, dirtied: seq<uint16>)

  /** The tables the runtime sees. */
  function TablesOf(p: Packed, ranges: Ranges): Tables {
    Tables(ReadLut(p.lutData), ReadHalves(p.ligData), ranges)
  }

  /** The position of a codepoint among those available. */
  function ScratchIndex(cp: uint16): (n: nat)
    requires IsScratch(cp)
    ensures n < SCRATCH_COUNT && ScratchAt(n) == cp
  {
    if cp < 0x750 then cp - 0x700 else cp - 0x780 + 0x50
  }

  /** `cp` is among the first `n` codepoints handed out. */
  predicate Below(cp: int, n: nat) {
    0 <= cp < 0x10000 && IsScratch(cp) && ScratchIndex(cp) < n
  }

  lemma TakenAreBelow(n: nat, cp: uint16)
    requires n <= SCRATCH_COUNT
    ensures cp in Taken(n) <==> Below(cp, n)
  {
    if cp in Taken(n) {
      var i :| 0 <= i < n && Taken(n)[i] == cp;
      assert ScratchIndex(cp) == i;
    }
    if Below(cp, n) {
      assert Taken(n)[ScratchIndex(cp)] == cp;
    }
  }

  /** Each glyph has its own codepoint among the first `n`. */
  ghost predicate Selects(selected: map<Glyph, uint16>, n: nat) {
    && (forall g :: g in selected ==> Below(selected[g], n))
    && (forall g, h :: g in selected && h in selected && selected[g] == selected[h] ==> g == h)
  }

  /** `cp` belongs to a glyph. */
  ghost predicate IsSelected(selected: map<Glyph, uint16>, cp: uint16) {
    exists g :: g in selected && selected[g] == cp
  }

  /** `after` extends `before`: old glyphs keep their codepoints, and exactly the codepoints from `n` to `m` are new. */
  ghost predicate Extends(before: map<Glyph, uint16>, n: nat, after: map<Glyph, uint16>, m: nat) {
    && n <= m <= SCRATCH_COUNT && Selects(after, m)
    && (forall g :: g in before ==> g in after && after[g] == before[g])
    && (forall g :: g in after && g !in before ==> !Below(after[g], n))
    && (forall i :: n <= i < m ==> IsSelected(after, ScratchAt(i)))
  }

  /** The first part is the codepoint of the first glyph, the others are relative to it. */
  ghost predicate Parts(glyphs: seq<Glyph>, selected: map<Glyph, uint16>, parts: seq<int>) {
    |parts| == |glyphs| && forall k :: 0 <= k < |glyphs| ==>
      && glyphs[0] in selected && glyphs[k] in selected
      && parts[k] == if k == 0 then selected[glyphs[0]] as int
        else selected[glyphs[k]] as int - selected[glyphs[0]] as int
  }

  /** What a codepoint is handed out for: the row of a ligature, or a glyph. */
  datatype Slot = LigatureSlot(row: nat) | GlyphSlot(glyph: Glyph)

  /** New glyphs take the next slots, in order. */
  function WithGlyphs(slots: seq<Slot>, glyphs: seq<Glyph>): (r: seq<Slot>)
    ensures slots <= r && forall k :: 0 <= k < |glyphs| ==> GlyphSlot(glyphs[k]) in r
  {
    if glyphs == [] then slots
    else
      var n := |glyphs| - 1;
      var before := WithGlyphs(slots, glyphs[..n]);
      if GlyphSlot(glyphs[n]) in before then before else before + [GlyphSlot(glyphs[n])]
  }

  /** The order in which the members use up codepoints: a ligature first takes one for itself. */
  function Slots(ms: seq<Member>): seq<Slot>
    decreases |ms|, 1
  {
    if ms == [] then []
    else WithGlyphs(SlotsBefore(ms), ms[|ms| - 1].glyphs)
  }

  /** The slots used when the glyphs of the last member are looked at. */
  function SlotsBefore(ms: seq<Member>): seq<Slot>
    requires ms != []
    decreases |ms|, 0
  {
    var n := |ms| - 1;
    Slots(ms[..n]) + (if |ms[n].key| == 1 then [] else [LigatureSlot(n)])
  }

  function PlaceOf(slots: seq<Slot>, s: Slot): (i: nat)
    requires s in slots
    ensures i < |slots| && slots[i] == s
    ensures s in slots[..|slots| - 1] ==> i < |slots| - 1
  {
    var n := |slots| - 1;
    if s in slots[..n] then PlaceOf(slots[..n], s) else n
  }

  function CodeOf(slots: seq<Slot>, g: Glyph): uint16
    requires GlyphSlot(g) in slots && |slots| <= SCRATCH_COUNT
  {
    ScratchAt(PlaceOf(slots, GlyphSlot(g)))
  }

  /** Four forms, all within a signed byte of the first. */
  ghost predicate RowFits(m: Member, slots: seq<Slot>)
    requires |slots| <= SCRATCH_COUNT && forall k :: 0 <= k < |m.glyphs| ==> GlyphSlot(m.glyphs[k]) in slots
  {
    |m.glyphs| == 4 && forall k :: 1 <= k < 4 ==>
      -0x80 <= CodeOf(slots, m.glyphs[k]) as int - CodeOf(slots, m.glyphs[0]) as int < 0x80
  }

  /** One or two letters (or an empty pattern), of 16 bits each. */
  ghost predicate KeyFits(key: seq<nat>) {
    |key| <= 2 && forall c :: 0 <= c < |key| ==> key[c] < 0x10000
  }

  /** What pack_lut accepts: enough recycled codepoints, and forms close enough together. */
  ghost predicate Packable(ms: seq<Member>) {
    ms == [] ||
    var n := |ms| - 1;
    Packable(ms[..n]) && KeyFits(ms[n].key) && |Slots(ms)| <= SCRATCH_COUNT && RowFits(ms[n], Slots(ms))
  }

  lemma {:induction false} PackablePrefix(ms: seq<Member>, n: nat)
    requires n <= |ms|
    ensures Packable(ms) ==> Packable(ms[..n])
    decreases |ms|
  {
    hide Slots, RowFits, KeyFits;
    if n < |ms| {
      assert ms[..|ms| - 1][..n] == ms[..n];
      PackablePrefix(ms[..|ms| - 1], n);
    } else {
      assert ms[..n] == ms;
    }
  }

  /** The map and the count are those of the slots. */
  ghost predicate Slotted(selected: map<Glyph, uint16>, used: nat, slots: seq<Slot>) {
    && used == |slots| <= SCRATCH_COUNT
    && (forall g :: g in selected <==> GlyphSlot(g) in slots)
    && (forall g :: g in selected ==> selected[g] == CodeOf(slots, g))
  }

  lemma {:induction false} WithGlyphsPrefix(slots: seq<Slot>, glyphs: seq<Glyph>, n: nat)
    requires n <= |glyphs|
    ensures WithGlyphs(slots, glyphs[..n]) <= WithGlyphs(slots, glyphs)
    decreases |glyphs|
  {
    if n < |glyphs| {
      assert glyphs[..|glyphs| - 1][..n] == glyphs[..n];
      WithGlyphsPrefix(slots, glyphs[..|glyphs| - 1], n);
    } else {
      assert glyphs[..n] == glyphs;
    }
  }

  lemma WithGlyphsStep(slots: seq<Slot>, glyphs: seq<Glyph>, n: nat)
    requires n < |glyphs|
    ensures var before := WithGlyphs(slots, glyphs[..n]);
            WithGlyphs(slots, glyphs[..n + 1]) == if GlyphSlot(glyphs[n]) in before then before
              else before + [GlyphSlot(glyphs[n])]
  {
    assert glyphs[..n + 1][..n] == glyphs[..n];
  }

  lemma SlotMore(selected: map<Glyph, uint16>, slots: seq<Slot>, g: Glyph)
    requires Slotted(selected, |slots|, slots) && GlyphSlot(g) !in slots && |slots| < SCRATCH_COUNT
    ensures Slotted(selected[g := ScratchAt(|slots|)], |slots| + 1, slots + [GlyphSlot(g)])
  {
    var more := slots + [GlyphSlot(g)];
    assert more[..|slots|] == slots;
  }

  lemma SlotTaken(selected: map<Glyph, uint16>, slots: seq<Slot>, row: nat)
    requires Slotted(selected, |slots|, slots) && |slots| < SCRATCH_COUNT
    ensures Slotted(selected, |slots| + 1, slots + [LigatureSlot(row)])
  {
    var more := slots + [LigatureSlot(row)];
    assert more[..|slots|] == slots;
  }

  /** Lines 106-109: the glyph's codepoint, a new one if it has none. */
  method SelectGlyph(glyph: Glyph, selectedIn: map<Glyph, uint16>, usedIn: nat, ghost first: map<Glyph, uint16>,
                     ghost n: nat, ghost slots: seq<Slot>)
    returns (ok: bool, selected: map<Glyph, uint16>, used: nat)
    requires Extends(first, n, selectedIn, usedIn) && Slotted(selectedIn, usedIn, slots)
    ensures ok <==> GlyphSlot(glyph) in slots || |slots| < SCRATCH_COUNT
    ensures ok ==> Extends(first, n, selected, used) && glyph in selected
    ensures ok ==> Slotted(selected, used, if GlyphSlot(glyph) in slots then slots else slots + [GlyphSlot(glyph)])
    ensures ok ==> forall g :: g in selectedIn ==> g in selected && selected[g] == selectedIn[g]
  {
    hide Slotted, IsScratch, ScratchAt;
    SlottedGlyph(selectedIn, usedIn, slots, glyph);
    selected, used := selectedIn, usedIn;
    if glyph !in selected {
      if used == SCRATCH_COUNT {
        ok := false;
        return;
      }
      SlotMore(selected, slots, glyph);
      selected := selected[glyph := ScratchAt(used)];
      FreshIndex(used);
      forall i | n <= i <= used ensures IsSelected(selected, ScratchAt(i)) {
        if i < used {
          assert IsSelected(selectedIn, ScratchAt(i));
          var g :| g in selectedIn && selectedIn[g] == ScratchAt(i);
          assert selected[g] == ScratchAt(i);
        } else {
          assert selected[glyph] == ScratchAt(i);
        }
      }
      used := used + 1;
    }
    ok := true;
  }

  /** Lines 103-114: the glyphs of one member get their codepoints; the row's parts are relative to the first. */
  method AssignForms(glyphs: seq<Glyph>, selectedIn: map<Glyph, uint16>, usedIn: nat, ghost slots: seq<Slot>)
    returns (r: Result<seq<int>>, selected: map<Glyph, uint16>, used: nat)
    requires usedIn <= SCRATCH_COUNT && Selects(selectedIn, usedIn) && Slotted(selectedIn, usedIn, slots)
    ensures r.Ok? <==> |WithGlyphs(slots, glyphs)| <= SCRATCH_COUNT
    ensures r.Ok? ==> Slotted(selected, used, WithGlyphs(slots, glyphs)) && Extends(selectedIn, usedIn, selected, used)
    ensures r.Ok? ==> Parts(glyphs, selected, r.value)
  {
    hide Slotted, WithGlyphs, IsScratch, Extends, Parts, Selects;
    selected, used := selectedIn, usedIn;
    NoForms(slots, glyphs, selected, used);
    var parts: seq<int> := [];
    var base := 0;
    for idx := 0 to |glyphs|
      invariant Extends(selectedIn, usedIn, selected, used)
      invariant idx > 0 ==> glyphs[0] in selected && base == selected[glyphs[0]] as int
      invariant base != 0 <==> idx > 0
      invariant Parts(glyphs[..idx], selected, parts)
      invariant Slotted(selected, used, WithGlyphs(slots, glyphs[..idx]))
    {
      var glyph := glyphs[idx];
      ghost var was := selected;
      WithGlyphsStep(slots, glyphs, idx);
      WithGlyphsPrefix(slots, glyphs, idx + 1);
      SlottedCount(selected, used, WithGlyphs(slots, glyphs[..idx]));
      var ok;
      ok, selected, used := SelectGlyph(glyph, selected, used, selectedIn, usedIn, WithGlyphs(slots, glyphs[..idx]));
      if !ok {
        return Err("StopIteration: no codepoint left"), selected, used;
      }
      NeverZero(selectedIn, usedIn, selected, used, glyph);
      PartsMore(glyphs, idx, was, selected, parts);
      if base == 0 {
        base := selected[glyph] as int;
        parts := parts + [base];
      } else {
        parts := parts + [selected[glyph] as int - base];
      }
    }
    assert glyphs[..|glyphs|] == glyphs;
    SlottedCount(selected, used, WithGlyphs(slots, glyphs));
    r := Ok(parts);
  }

  lemma NeverZero(first: map<Glyph, uint16>, n: nat, selected: map<Glyph, uint16>, used: nat, g: Glyph)
    requires Extends(first, n, selected, used) && g in selected
    ensures selected[g] != 0
  {}

  lemma PartsMore(glyphs: seq<Glyph>, n: nat, was: map<Glyph, uint16>, selected: map<Glyph, uint16>, parts: seq<int>)
    requires n < |glyphs| && Parts(glyphs[..n], was, parts) && glyphs[n] in selected
    requires forall g :: g in was ==> g in selected && selected[g] == was[g]
    ensures glyphs[0] in selected
    ensures Parts(glyphs[..n + 1], selected,
                  parts + [if n == 0 then selected[glyphs[0]] as int
                    else selected[glyphs[n]] as int - selected[glyphs[0]] as int])
  {
    var up, front := glyphs[..n + 1], glyphs[..n];
    forall k | 0 <= k < n
      ensures up[0] in selected && up[k] in selected && selected[up[0]] == was[up[0]] && selected[up[k]] == was[up[k]]
    {
      var g, h: Glyph := front[0], front[k];
      assert g in was && h in was;
    }
  }

  lemma NoForms(slots: seq<Slot>, glyphs: seq<Glyph>, selected: map<Glyph, uint16>, used: nat)
    requires Selects(selected, used) && used <= SCRATCH_COUNT
    ensures WithGlyphs(slots, glyphs[..0]) == slots && Extends(selected, used, selected, used)
    ensures Parts(glyphs[..0], selected, [])
  {}

  lemma SlottedCount(selected: map<Glyph, uint16>, used: nat, slots: seq<Slot>)
    requires Slotted(selected, used, slots)
    ensures used == |slots| <= SCRATCH_COUNT
  {}

  lemma SlottedGlyph(selected: map<Glyph, uint16>, used: nat, slots: seq<Slot>, g: Glyph)
    requires Slotted(selected, used, slots)
    ensures used == |slots| && (g in selected <==> GlyphSlot(g) in slots)
    ensures g in selected ==> selected[g] == CodeOf(slots, g)
  {}

  lemma FreshIndex(n: nat)
    requires n < SCRATCH_COUNT
    ensures ScratchIndex(ScratchAt(n)) == n
  {}

  /** Row `e` gives member `m` the forms selected for its glyphs; a single letter keeps its own codepoint. */
  ghost predicate RowFor(m: Member, e: Entry, selected: map<Glyph, uint16>) {
    && |m.key| <= 2 && |m.glyphs| == 4 && (forall k :: 0 <= k < 4 ==> m.glyphs[k] in selected)
    && e.iso == selected[m.glyphs[0]] && e.Initial() == selected[m.glyphs[1]] as int
    && e.Medial() == selected[m.glyphs[2]] as int && e.Final() == selected[m.glyphs[3]] as int
    && (|m.key| == 1 ==> e.trueCp == m.key[0])
  }

  /** Row `i` belongs to a ligature and is found under the codepoint `cp`. */
  ghost predicate LigatureRow(ms: seq<Member>, lut: seq<Entry>, i: int, cp: uint16)
    requires |lut| == |ms|
  {
    0 <= i < |ms| && |ms[i].key| != 1 && lut[i].trueCp == cp
  }

  /** The ligature list: patterns in order, each followed by the codepoint of its row. */
  function LigaturesOf(ms: seq<Member>, lut: seq<Entry>): seq<int>
    requires |ms| == |lut|
  {
    if ms == [] then []
    else
      var n := |ms| - 1;
      LigaturesOf(ms[..n], lut[..n]) + (if |ms[n].key| == 1 then [] else ms[n].key + [lut[n].trueCp as int + 0x8000])
  }

  /** The tables for the members `ms`, with the first `used` codepoints handed out. */
  ghost predicate TablesFor(ms: seq<Member>, lut: seq<Entry>, ligs: seq<uint16>, selected: map<Glyph, uint16>,
                            used: nat) {
    && |lut| == |ms| && used <= SCRATCH_COUNT && Selects(selected, used)
    && (forall i :: 0 <= i < |ms| ==> RowFor(ms[i], lut[i], selected))
    && (forall i :: 0 <= i < |ms| && |ms[i].key| != 1 ==>
          Below(lut[i].trueCp, used) && !IsSelected(selected, lut[i].trueCp))
    && (forall i, j :: 0 <= i < j < |ms| && |ms[i].key| != 1 && |ms[j].key| != 1 ==> lut[i].trueCp != lut[j].trueCp)
    && (forall k :: 0 <= k < used ==>
          IsSelected(selected, ScratchAt(k)) || exists i :: LigatureRow(ms, lut, i, ScratchAt(k)))
    && ligs == LigaturesOf(ms, lut)
  }

  lemma RowKept(m: Member, e: Entry, before: map<Glyph, uint16>, after: map<Glyph, uint16>)
    requires RowFor(m, e, before)
    requires forall g :: g in before ==> g in after && after[g] == before[g]
    ensures RowFor(m, e, after)
  {
    forall k | 0 <= k < 4 ensures m.glyphs[k] in after && after[m.glyphs[k]] == before[m.glyphs[k]] {
      var g: Glyph := m.glyphs[k];
      assert g in before;
      assert g in after && after[g] == before[g];
    }
  }

  lemma RowFromParts(m: Member, trueCp: uint16, parts: seq<int>, selected: map<Glyph, uint16>)
    requires Parts(m.glyphs, selected, parts) && |parts| == 4 && |m.key| <= 2 && (|m.key| == 1 ==> trueCp == m.key[0])
    requires 0 <= parts[0] < 0x10000 && forall k :: 1 <= k < 4 ==> -0x80 <= parts[k] < 0x80
    ensures RowFor(m, Entry(trueCp, parts[0], parts[1], parts[2], parts[3]), selected)
  {}

  /** Old rows keep their codepoints to themselves. */
  lemma StillOwn(selIn: map<Glyph, uint16>, n: nat, sel: map<Glyph, uint16>, m: nat, cp: uint16)
    requires Extends(selIn, n, sel, m) && Below(cp, n) && !IsSelected(selIn, cp)
    ensures !IsSelected(sel, cp) && Below(cp, m)
  {
    forall g | g in sel ensures sel[g] != cp {
      if g in selIn {
        assert selIn[g] != cp;
      }
    }
  }

  lemma StillSelected(selIn: map<Glyph, uint16>, n: nat, sel: map<Glyph, uint16>, m: nat, cp: uint16)
    requires Extends(selIn, n, sel, m) && IsSelected(selIn, cp)
    ensures IsSelected(sel, cp)
  {
    var g :| g in selIn && selIn[g] == cp;
    assert g in sel && sel[g] == cp;
  }

  /** One more member. */
  lemma AddMember(ms: seq<Member>, lut: seq<Entry>, ligs: seq<uint16>, selIn: map<Glyph, uint16>, used: nat,
                  m: Member, e: Entry, more: seq<uint16>, sel: map<Glyph, uint16>, usedOut: nat)
    requires TablesFor(ms, lut, ligs, selIn, used)
    requires RowFor(m, e, sel)
    requires if |m.key| == 1 then more == [] && Extends(selIn, used, sel, usedOut)
             else used < SCRATCH_COUNT && e.trueCp == ScratchAt(used) && more == m.key + [e.trueCp as int + 0x8000]
                  && Extends(selIn, used + 1, sel, usedOut)
    ensures TablesFor(ms + [m], lut + [e], ligs + more, sel, usedOut)
  {
    hide RowFor, IsSelected, IsScratch, ScratchAt;
    var ms', lut', n := ms + [m], lut + [e], |ms|;
    assert ms'[..n] == ms && lut'[..n] == lut;
    var mid := if |m.key| == 1 then used else used + 1;
    if |m.key| != 1 {
      FreshIndex(used);
      FreshIsOwn(selIn, used, sel, usedOut);
    }
    forall i | 0 <= i < |ms'| ensures RowFor(ms'[i], lut'[i], sel) {
      if i < n {
        RowKept(ms[i], lut[i], selIn, sel);
      }
    }
    forall i | 0 <= i < |ms'| && |ms'[i].key| != 1
      ensures Below(lut'[i].trueCp, usedOut) && !IsSelected(sel, lut'[i].trueCp)
    {
      if i < n {
        StillOwn(selIn, mid, sel, usedOut, lut[i].trueCp);
      }
    }
    forall k | 0 <= k < usedOut
      ensures IsSelected(sel, ScratchAt(k)) || exists i :: LigatureRow(ms', lut', i, ScratchAt(k))
    {
      if k < used {
        if IsSelected(selIn, ScratchAt(k)) {
          StillSelected(selIn, mid, sel, usedOut, ScratchAt(k));
        } else {
          var i :| LigatureRow(ms, lut, i, ScratchAt(k));
          assert LigatureRow(ms', lut', i, ScratchAt(k));
        }
      } else if k == used && |m.key| != 1 {
        assert LigatureRow(ms', lut', n, ScratchAt(k));
      }
    }
  }

  lemma FreshIsOwn(selIn: map<Glyph, uint16>, n: nat, sel: map<Glyph, uint16>, m: nat)
    requires n < SCRATCH_COUNT && Selects(selIn, n) && Extends(selIn, n + 1, sel, m)
    ensures !IsSelected(sel, ScratchAt(n)) && Below(ScratchAt(n), m)
  {
    FreshIndex(n);
    forall g | g in selIn ensures selIn[g] != ScratchAt(n) {
      assert Below(selIn[g], n);
    }
    StillOwn(selIn, n + 1, sel, m, ScratchAt(n));
  }

  /** struct.pack("<HHbbb", *line_parts), with its range errors. */
  method PackRow(trueCp: nat, parts: seq<int>) returns (r: Result<Entry>)
    ensures r.Ok? <==> |parts| == 4 && trueCp < 0x10000 && 0 <= parts[0] < 0x10000 && forall k :: 1 <= k < 4 ==>
            -0x80 <= parts[k] < 0x80
    ensures r.Ok? ==> r.value == Entry(trueCp, parts[0], parts[1], parts[2], parts[3])
  {
    if |parts| != 4 {
      return Err("struct.error: wrong number of parts");
    }
    if trueCp < 0x10000 && 0 <= parts[0] < 0x10000 &&
       -0x80 <= parts[1] < 0x80 && -0x80 <= parts[2] < 0x80 && -0x80 <= parts[3] < 0x80 {
      return Ok(Entry(trueCp, parts[0], parts[1], parts[2], parts[3]));
    }
    return Err("struct.error: codepoint or delta out of range");
  }

  /** What pack_lut hands back for the members `ms`. */
  ghost predicate PackedFor(ms: seq<Member>, p: Packed) {
    && |p.lutData| % 7 == 0 && |p.ligData| % 2 == 0 && |p.dirtied| <= SCRATCH_COUNT && p.dirtied == Taken(|p.dirtied|)
    && TablesFor(ms, ReadLut(p.lutData), ReadHalves(p.ligData), p.selected, |p.dirtied|)
  }

  /** Lines 99-101: the pattern of a ligature and its replacement, marked by the top bit. */
  method PackPattern(key: seq<nat>, trueCp: uint16, ligDataIn: seq<byte>) returns (r: Result<seq<byte>>)
    requires |ligDataIn| % 2 == 0 && trueCp < 0x8000
    ensures r.Ok? <==> forall c :: 0 <= c < |key| ==> key[c] < 0x10000
    ensures r.Ok? ==>
              |r.value| % 2 == 0 && ReadHalves(r.value) == ReadHalves(ligDataIn) + (key + [trueCp as int + 0x8000])
  {
    var ligData := ligDataIn;
    ghost var more: seq<uint16> := [];
    for c := 0 to |key|
      invariant |ligData| % 2 == 0 && ReadHalves(ligData) == ReadHalves(ligDataIn) + more
      invariant more == key[..c] && forall i :: 0 <= i < c ==> key[i] < 0x10000
    {
      if key[c] >= 0x10000 {
        return Err("struct.error: ligature letter out of range");
      }
      ReadHalvesAppend(ligData, key[c]);
      ligData := ligData + PackH(key[c]);
      more := more + [key[c]];
    }
    ReadHalvesAppend(ligData, trueCp + 0x8000);
    return Ok(ligData + PackH(trueCp + 0x8000));
  }

  /** The local variables of pack_lut after the members `ms`. */
  ghost predicate State(ms: seq<Member>, lutData: seq<byte>, ligData: seq<byte>, selected: map<Glyph, uint16>,
                        used: nat) {
    && |lutData| % 7 == 0 && |ligData| % 2 == 0
    && TablesFor(ms, ReadLut(lutData), ReadHalves(ligData), selected, used)
    && Packable(ms) && Slotted(selected, used, Slots(ms))
  }

  /** One more member can be packed just when the slots suffice, its key fits and its forms are close. */
  lemma PackableStep(ms: seq<Member>, m: Member)
    ensures var up := ms + [m];
            && Slots(up) == WithGlyphs(SlotsBefore(up), m.glyphs)
            && SlotsBefore(up) == Slots(ms) + (if |m.key| == 1 then [] else [LigatureSlot(|ms|)])
            && (Packable(up) <==>
              Packable(ms) && KeyFits(m.key) && |Slots(up)| <= SCRATCH_COUNT && RowFits(m, Slots(up)))
  {
    hide WithGlyphs, RowFits, KeyFits;
    assert (ms + [m])[..|ms|] == ms;
  }

  lemma PartsAgree(m: Member, selected: map<Glyph, uint16>, slots: seq<Slot>, parts: seq<int>)
    requires Parts(m.glyphs, selected, parts) && Slotted(selected, |slots|, slots)
    requires forall k :: 0 <= k < |m.glyphs| ==> GlyphSlot(m.glyphs[k]) in slots
    ensures RowFits(m, slots) <==> |parts| == 4 && 0 <= parts[0] < 0x10000 && forall k :: 1 <= k < 4 ==>
            -0x80 <= parts[k] < 0x80
  {
    hide IsScratch;
    forall k | 0 <= k < |parts|
      ensures parts[k] == if k == 0 then CodeOf(slots, m.glyphs[0]) as int
              else CodeOf(slots, m.glyphs[k]) as int - CodeOf(slots, m.glyphs[0]) as int
    {
      var g: Glyph := m.glyphs[k];
      assert selected[g] == CodeOf(slots, g);
    }
  }

  lemma StateBounds(ms: seq<Member>, lutData: seq<byte>, ligData: seq<byte>, selected: map<Glyph, uint16>, used: nat)
    requires State(ms, lutData, ligData, selected, used)
    ensures used == |Slots(ms)| <= SCRATCH_COUNT && Selects(selected, used) && Slotted(selected, used, Slots(ms))
    ensures Packable(ms)
    ensures |lutData| % 7 == 0 && |ligData| % 2 == 0
    ensures TablesFor(ms, ReadLut(lutData), ReadHalves(ligData), selected, used)
  {}

  /** Lines 92-101: the member's own codepoint, and the pattern of a ligature. */
  method TrueCodept(m: Member, usedIn: nat, ligDataIn: seq<byte>, ghost selected: map<Glyph, uint16>,
                    ghost ms: seq<Member>)
    returns (ok: bool, trueCp: nat, used: nat, ligData: seq<byte>, ghost more: seq<uint16>)
    requires |ligDataIn| % 2 == 0 && Slotted(selected, usedIn, Slots(ms))
    ensures ok <==> |SlotsBefore(ms + [m])| <= SCRATCH_COUNT && (|m.key| == 1 || KeyFits(m.key))
    ensures ok ==> used == |SlotsBefore(ms + [m])| && Slotted(selected, used, SlotsBefore(ms + [m]))
    ensures ok ==> |ligData| % 2 == 0 && ReadHalves(ligData) == ReadHalves(ligDataIn) + more
    ensures ok ==> if |m.key| == 1 then trueCp == m.key[0] && more == []
                   else used == usedIn + 1 && trueCp == ScratchAt(usedIn) && more == m.key + [trueCp + 0x8000]
  {
    hide ReadHalves, IsScratch, WithGlyphs, Slots, Slotted;
    PackableStep(ms, m);
    SlottedCount(selected, usedIn, Slots(ms));
    used, ligData, more, trueCp := usedIn, ligDataIn, [], 0;
    if |m.key| == 1 {
      trueCp := m.key[0];
      assert Slots(ms) + [] == Slots(ms);
    } else {
      if |m.key| > 2 || used == SCRATCH_COUNT {
        ok := false;
        return;
      }
      trueCp := ScratchAt(used);
      used := used + 1;
      SlotTaken(selected, Slots(ms), |ms|);
      var lig := PackPattern(m.key, trueCp, ligData);
      if lig.Err? {
        ok := false;
        return;
      }
      ligData := lig.value;
      more := m.key + [trueCp + 0x8000];
    }
    ok := true;
  }

  /** One turn of the loop of lines 89-115. */
  method PackMember(m: Member, lutDataIn: seq<byte>, ligDataIn: seq<byte>, selectedIn: map<Glyph, uint16>,
                    usedIn: nat, ghost ms: seq<Member>)
    returns (ok: bool, lutData: seq<byte>, ligData: seq<byte>, selected: map<Glyph, uint16>, used: nat)
    requires State(ms, lutDataIn, ligDataIn, selectedIn, usedIn)
    ensures ok <==> Packable(ms + [m])
    ensures ok ==> State(ms + [m], lutData, ligData, selected, used)
  {
    hide TablesFor, RowFor, Extends, Parts, IsScratch, ReadLut, ReadHalves, Slots, SlotsBefore, WithGlyphs, RowFits,
         Packable, Slotted, Selects;
    StateBounds(ms, lutDataIn, ligDataIn, selectedIn, usedIn);
    PackableStep(ms, m);
    lutData, ligData, selected, used := lutDataIn, ligDataIn, selectedIn, usedIn;
    var trueCp;
    ghost var more;
    ok, trueCp, used, ligData, more := TrueCodept(m, used, ligData, selected, ms);
    if !ok {
      return;
    }
    TakenSelects(selectedIn, usedIn, used);
    var parts;
    parts, selected, used := AssignForms(m.glyphs, selected, used, SlotsBefore(ms + [m]));
    if parts.Err? {
      ok := false;
      return;
    }
    SlottedCount(selected, used, Slots(ms + [m]));
    PartsAgree(m, selected, Slots(ms + [m]), parts.value);
    var row := PackRow(trueCp, parts.value);
    if row.Err? {
      ok := false;
      return;
    }
    RowFromParts(m, trueCp, parts.value, selected);
    ReadLutAppend(lutData, row.value);
    lutData := lutData + PackEntry(row.value);
    AddMember(ms, ReadLut(lutDataIn), ReadHalves(ligDataIn), selectedIn, usedIn, m, row.value, more, selected, used);
  }

  lemma TakenSelects(selected: map<Glyph, uint16>, n: nat, m: nat)
    requires Selects(selected, n) && n <= m
    ensures Selects(selected, m)
  {}

  /** pack_lut: the labels, which only name bitmaps, are left out. It succeeds exactly on packable members. */
  method Pack(forms: seq<Member>) returns (r: Result<Packed>)
    ensures r.Ok? <==> Packable(forms)
    ensures r.Ok? ==> PackedFor(forms, r.value) && Slotted(r.value.selected, |r.value.dirtied|, Slots(forms))
  {
    hide Selects, State, Packable, PackedFor, Slotted, Slots;
    var used: nat := 0;
    var selected: map<Glyph, uint16> := map[];
    var lutData: seq<byte>, ligData: seq<byte> := [], [];
    NothingPacked();
    for n := 0 to |forms|
      invariant State(forms[..n], lutData, ligData, selected, used)
    {
      assert forms[..n + 1] == forms[..n] + [forms[n]];
      PackablePrefix(forms, n + 1);
      var ok;
      ok, lutData, ligData, selected, used := PackMember(forms[n], lutData, ligData, selected, used, forms[..n]);
      if !ok {
        return Err("pack_lut");
      }
    }
    assert forms[..|forms|] == forms;
    StateBounds(forms, lutData, ligData, selected, used);
    AllPacked(forms, lutData, ligData, selected, used);
    r := Ok(Packed(lutData, ligData, selected, Taken(used)));
  }

  lemma AllPacked(ms: seq<Member>, lutData: seq<byte>, ligData: seq<byte>, selected: map<Glyph, uint16>, used: nat)
    requires State(ms, lutData, ligData, selected, used) && used <= SCRATCH_COUNT
    ensures PackedFor(ms, Packed(lutData, ligData, selected, Taken(used)))
  {}

  lemma NothingPacked()
    ensures State([], [], [], map[], 0)
  {}

  /** Row `i` of the table, byte by byte: two codepoints, lowest byte first, and three signed differences. */
  lemma {:induction false} LutRow(b: seq<byte>, i: nat)
    requires 7 * i + 7 <= |b|
    ensures i < |ReadLut(b)|
    ensures var e, at := ReadLut(b)[i], 7 * i;
            && e.trueCp == FromBytes(b[at], b[at + 1], 0, 0) && e.iso == FromBytes(b[at + 2], b[at + 3], 0, 0)
            && (e.dIni - b[at + 4] as int) % 256 == 0 && (e.dMed - b[at + 5] as int) % 256 == 0
            && (e.dFin - b[at + 6] as int) % 256 == 0
    decreases |b|
  {
    hide ReadEntry, FromBytes;
    if i == 0 {
      EntryBytes(b[..7]);
    } else {
      LutRow(b[7..], i - 1);
      assert forall j :: 0 <= j < |b| - 7 ==> b[7..][j] == b[j + 7];
    }
  }

  lemma EntryBytes(b: seq<byte>)
    requires |b| == 7
    ensures var e := ReadEntry(b);
            && e.trueCp == FromBytes(b[0], b[1], 0, 0) && e.iso == FromBytes(b[2], b[3], 0, 0)
            && (e.dIni - b[4] as int) % 256 == 0 && (e.dMed - b[5] as int) % 256 == 0
            && (e.dFin - b[6] as int) % 256 == 0
  {}

  /** Codepoint `i` of the ligature list, lowest byte first. */
  lemma {:induction false} LigatureHalf(b: seq<byte>, i: nat)
    requires 2 * i + 2 <= |b|
    ensures i < |ReadHalves(b)| && ReadHalves(b)[i] == FromBytes(b[2 * i], b[2 * i + 1], 0, 0)
    decreases |b|
  {
    if i > 0 {
      LigatureHalf(b[2..], i - 1);
      assert b[2..][2 * (i - 1)] == b[2 * i] && b[2..][2 * (i - 1) + 1] == b[2 * i + 1];
    }
  }

  /** The recycled codepoints are U+0700 to U+074F and then U+0780 to U+07FF, each once. */
  lemma ScratchBlocks(cp: uint16)
    ensures 0x700 <= cp <= 0x74F ==> ScratchAt(cp - 0x700) == cp
    ensures 0x780 <= cp <= 0x7FF ==> ScratchAt(80 + (cp - 0x780)) == cp
    ensures forall n: nat :: n < SCRATCH_COUNT ==>
              if n < 80 then ScratchAt(n) == 0x700 + n else ScratchAt(n) == 0x780 + (n - 80) && n < 208
    ensures SCRATCH_COUNT == 80 + 128
  {}
}
