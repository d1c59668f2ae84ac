/** The tables of a generated font, for two- or four-byte codepoints and offsets. */
module FontTables {
  import opened Runes
  import opened Packing
  import opened PfoFormat
  import opened FontRequests

  predicate FieldFits(v: nat, size: nat) {
    v < if size == 4 then 0x1_0000_0000 else 0x10000
  }

  predicate EntryFits(e: Entry, cb: nat, ob: nat) { FieldFits(e.0, cb) && FieldFits(e.1, ob) }

  function PackEntry(e: Entry, cb: nat, ob: nat): seq<byte>
    requires EntryFits(e, cb, ob)
  {
    (if cb == 4 then PackI(e.0) else PackH(e.0)) + (if ob == 4 then PackI(e.1) else PackH(e.1))
  }

  ghost predicate EntriesFit(es: seq<Entry>, cb: nat, ob: nat) {
    forall i :: 0 <= i < |es| ==> EntryFits(es[i], cb, ob)
  }

  /** The packed entries of bucket `h`, in order. */
  ghost function Rows(es: seq<Entry>, h: nat, cb: nat, ob: nat): seq<seq<byte>>
    requires EntriesFit(es, cb, ob)
  {
    if es == [] then []
    else
      var n := |es| - 1;
      Rows(es[..n], h, cb, ob) + (if es[n].0 % HASH_TABLE_SIZE == h then [PackEntry(es[n], cb, ob)] else [])
  }

  /** Bytes in the buckets before bucket `h`. */
  ghost function BytesBefore(es: seq<Entry>, h: nat, cb: nat, ob: nat): nat
    requires EntriesFit(es, cb, ob)
  {
    if h == 0 then 0 else BytesBefore(es, h - 1, cb, ob) + |Rows(es, h - 1, cb, ob)| * (cb + ob)
  }

  /** Bucket sizes and offsets fit the directory. */
  ghost predicate TablesFit(es: seq<Entry>, n: nat, cb: nat, ob: nat) {
    EntriesFit(es, cb, ob) && forall h :: 0 <= h < n ==>
      |Rows(es, h, cb, ob)| < 0x100 && BytesBefore(es, h, cb, ob) < 0x10000
  }

  ghost function HashRow(es: seq<Entry>, h: nat, cb: nat, ob: nat): seq<byte>
    requires h < HASH_TABLE_SIZE && TablesFit(es, HASH_TABLE_SIZE, cb, ob)
  {
    [h, |Rows(es, h, cb, ob)|] + PackH(BytesBefore(es, h, cb, ob))
  }

  predicate WideCodepoint(reqs: seq<Request>) {
    exists k :: 0 <= k < |reqs| && reqs[k].0 > MAX_2_BYTES_CODEPOINT
  }

  function CodepointBytesFor(reqs: seq<Request>): nat { if WideCodepoint(reqs) then 4 else 2 }

  /** 16-bit offsets when the whole glyph table is within their reach. */
  function OffsetBytesFor(version: byte, tableLength: nat): nat {
    if version == 3 && tableLength < 65536 then 2 else 4
  }

  /** The first `n` rows of the hash table. */
  ghost function HashBytes(es: seq<Entry>, n: nat, cb: nat, ob: nat): seq<byte>
    requires n <= HASH_TABLE_SIZE && TablesFit(es, HASH_TABLE_SIZE, cb, ob)
  {
    if n == 0 then [] else HashBytes(es, n - 1, cb, ob) + HashRow(es, n - 1, cb, ob)
  }

  /** The first `n` offset tables. */
  ghost function OffsetBytes(es: seq<Entry>, n: nat, cb: nat, ob: nat): seq<byte>
    requires EntriesFit(es, cb, ob)
  {
    if n == 0 then [] else OffsetBytes(es, n - 1, cb, ob) + Joined(Rows(es, n - 1, cb, ob))
  }

  /** fontinfo_bits */
  function FontInfo(version: byte, maxHeight: byte, glyphs: uint16, cb: byte, features: byte): (h: seq<byte>)
    ensures |h| == if version == 2 then 8 else HEADER_SIZE
  {
    [version, maxHeight] + PackH(glyphs) + PackH(WILDCARD_CODEPOINT) + [HASH_TABLE_SIZE, cb]
    + (if version == 2 then [] else [HEADER_SIZE, features])
  }

  /** What the entries of a font may be: two-byte and four-byte fields, by the sizes chosen. */
  lemma EntryLimits(e: Entry)
    ensures EntryFits(e, 2, 2) <==> e.0 <= 65535 && e.1 <= 65535
    ensures EntryFits(e, 2, 4) <==> e.0 <= 65535 && e.1 <= 4294967295
    ensures EntryFits(e, 4, 2) <==> e.0 <= 4294967295 && e.1 <= 65535
    ensures EntryFits(e, 4, 4) <==> e.0 <= 4294967295 && e.1 <= 4294967295
  {}

  /** A codepoint above 65535 makes all codepoints four bytes wide; version 3 has short offsets up to 65535 bytes. */
  lemma SizesChosen(reqs: seq<Request>, version: byte, length: nat)
    ensures CodepointBytesFor(reqs) == if exists k :: 0 <= k < |reqs| && reqs[k].0 > 65535 then 4 else 2
    ensures OffsetBytesFor(version, length) == if version == 3 && length <= 65535 then 2 else 4
  {}
}
