/** The generated tables of the text shaper, and the searches of runtime/text_shaper.c through them. */
module ShaperTable {
  import opened Runes
  import opened RtlRanges

  type int8 = d: int | -0x80 <= d < 0x80

  /** One row of ARABIC_SHAPER_LUT. */
  datatype Entry = Entry(trueCp: uint16, iso: uint16, dIni: int8, dMed: int8, dFin: int8) {

    function Initial(): int { iso + dIni }

    function Medial(): int { iso + dMed }

    function Final(): int { iso + dFin }

    predicate HasForm(cp: int) {
      cp == iso || cp == Initial() || cp == Medial() || cp == Final()
    }

    /** Identical medial and final forms mark a letter that does not join forward; kashida has no deltas at all. */
    predicate NoMedial() {
      dMed == dFin && dFin != 0
    }
  }

  const LIG_MASK: uint16 := 0x8000

  /** `ligatures` is a flat list of pattern, pattern, replacement; the replacement has its top bit set. */
  datatype Tables = Tables(lut: seq<Entry>, ligatures: seq<uint16>, shaper: Ranges)

  function FirstEntry(lut: seq<Entry>, cp: uint16): (i: nat)
    ensures i <= |lut|
    ensures forall j :: 0 <= j < i ==> lut[j].trueCp != cp
    ensures i < |lut| ==> lut[i].trueCp == cp
  {
    if lut == [] || lut[0].trueCp == cp then 0 else 1 + FirstEntry(lut[1..], cp)
  }

  /** `cp` is shapable. */
  predicate Letter(t: Tables, cp: uint16) {
    FirstEntry(t.lut, cp) < |t.lut|
  }

  function EntryOf(t: Tables, cp: uint16): (e: Entry)
    requires Letter(t, cp)
    ensures e in t.lut && e.trueCp == cp
  {
    t.lut[FirstEntry(t.lut, cp)]
  }

  function FirstWithForm(lut: seq<Entry>, cp: uint16): (i: nat)
    ensures i <= |lut|
    ensures forall j :: 0 <= j < i ==> !lut[j].HasForm(cp)
    ensures i < |lut| ==> lut[i].HasForm(cp)
  {
    if lut == [] || lut[0].HasForm(cp) then 0 else 1 + FirstWithForm(lut[1..], cp)
  }

  /** The letter a glyph codepoint belongs to, or 0. */
  function BaseOf(t: Tables, cp: uint16): uint16 {
    var i := FirstWithForm(t.lut, cp);
    if i < |t.lut| then t.lut[i].trueCp else 0
  }

  /** The ligature list is made of triples, and only replacements carry the mask. */
  ghost predicate Triples(ligs: seq<uint16>) {
    |ligs| % 3 == 0 && forall i :: 0 <= i < |ligs| ==> (ligs[i] >= LIG_MASK <==> i % 3 == 2)
  }

  /** The replacement of the first ligature `x`, `y`, or 0. */
  function LigatureOf(ligs: seq<uint16>, x: uint16, y: uint16): uint16 {
    if |ligs| < 3 then 0
    else if ligs[0] == x && ligs[1] == y then ligs[2] % LIG_MASK
    else LigatureOf(ligs[3..], x, y)
  }

  datatype Pattern = NoPattern | Pattern(x: uint16, y: uint16)

  /** The two letters the first ligature with replacement `cp` stands for. */
  function PatternOf(ligs: seq<uint16>, cp: uint16): Pattern {
    if |ligs| < 3 then NoPattern
    else if ligs[2] % LIG_MASK == cp then Pattern(ligs[0], ligs[1])
    else PatternOf(ligs[3..], cp)
  }

  /** find_lut_entry_by_codept: the index of the entry, or -1 for NULL. The guard of line 22 never holds. */
  method FindLutEntryByCodept(t: Tables, codept: uint16) returns (r: int)
    ensures Letter(t, codept) ==> r == FirstEntry(t.lut, codept)
    ensures !Letter(t, codept) ==> r == -1
  {
    if codept < 0x600 && codept > 0x6FF {
      return -1;
    }
    var i := 0;
    while i < |t.lut|
      invariant 0 <= i <= |t.lut|
      invariant forall j :: 0 <= j < i ==> t.lut[j].trueCp != codept
    {
      if t.lut[i].trueCp == codept {
        return i;
      }
      i := i + 1;
    }
    return -1;
  }

  method FindBaseCodeptByShaped(t: Tables, codept: uint16) returns (r: uint16)
    ensures r == BaseOf(t, codept)
  {
    var i := 0;
    while i < |t.lut|
      invariant 0 <= i <= |t.lut|
      invariant forall j :: 0 <= j < i ==> !t.lut[j].HasForm(codept)
    {
      var e := t.lut[i];
      if e.iso == codept || e.iso + e.dIni == codept || e.iso + e.dMed == codept || e.iso + e.dFin == codept {
        return e.trueCp;
      }
      i := i + 1;
    }
    return 0;
  }

  /** find_ligature_by_codepts with a pattern of two; the bound of `patternIdx` is tested first. */
  method FindLigatureByCodepts(ligs: seq<uint16>, x: uint16, y: uint16) returns (r: uint16)
    requires Triples(ligs)
    ensures r == LigatureOf(ligs, x, y)
  {
    var pattern := [x, y];
    var searching, patternIdx := true, 0;
    var i := 0;
    ghost var g := 0;
    while i < |ligs|
      invariant 0 <= g <= i <= |ligs| && g % 3 == 0 && i - g < 3
      invariant LigatureOf(ligs[g..], x, y) == LigatureOf(ligs, x, y)
      invariant i == g ==> searching && patternIdx == 0
      invariant i == g + 1 ==> if searching then patternIdx == 1 && ligs[g] == x else ligs[g] != x
      invariant i == g + 2 ==> if searching then patternIdx == 2 && ligs[g] == x && ligs[g + 1] == y
                               else !(ligs[g] == x && ligs[g + 1] == y)
      invariant !searching ==> patternIdx == 0
    {
      assert ligs[g..][3..] == ligs[g + 3..];
      if searching {
        if patternIdx < 2 && ligs[i] == pattern[patternIdx] {
          patternIdx := patternIdx + 1;
        } else {
          if ligs[i] >= LIG_MASK {
            return ligs[i] % LIG_MASK;
          }
          searching, patternIdx := false, 0;
        }
      } else if ligs[i] >= LIG_MASK {
        searching := true;
      }
      i := i + 1;
      if i == g + 3 {
        g := i;
      }
    }
    return 0;
  }
}
