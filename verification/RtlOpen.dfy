/** Spans that a digit or neutral rune ends: their last digit group is left unsettled by rtl_apply. */
module RtlOpen {
  import opened Runes
  import opened Utf8
  import opened RtlRanges
  import opened Rtl
  import opened RtlSpans
  import opened RtlTwice

  predicate Palindrome(s: Line) {
    Rev(s) == s
  }

  /** Where the digit group begins that is open at the end of a list; the length of the list if none is. */
  function OpenAt(s: Line): (k: nat)
    ensures k <= |s|
    decreases |s|
  {
    if s == [] then 0
    else if W(s[0]) then
      var k := GroupLen(s);
      if k == |s| then 0 else k + OpenAt(s[k..])
    else 1 + OpenAt(s[1..])
  }

  /** A group up to its last digit. */
  function DigitsEnd(g: Line): (k: nat)
    ensures k <= |g|
    ensures forall i :: k <= i < |g| ==> !W(g[i])
    ensures k > 0 ==> W(g[k - 1])
  {
    if g == [] || W(g[|g| - 1]) then |g| else DigitsEnd(g[..|g| - 1])
  }

  /** The neutral runes a list starts with. */
  function LeadLen(s: Line): (k: nat)
    ensures k <= |s|
    ensures forall i :: 0 <= i < k ==> N(s[i]) && !W(s[i])
    ensures LeadsToDigits(s) <==> k < |s| && W(s[k])
  {
    if s == [] || W(s[0]) || !N(s[0]) then 0 else 1 + LeadLen(s[1..])
  }

  /**
    * No neutral rune outside a digit group leads into one, except at the start of the span: the group
    * entered there comes back when it reads the same both ways.
    */
  predicate EntersOrdered(s: Line) {
    if LeadsToDigits(s) then
      var d := s[LeadLen(s)..];
      Palindrome(d[..GroupLen(d)]) && Ordered(d[GroupLen(d)..])
    else Ordered(s)
  }

  predicate NoStrong(s: Line) {
    forall i :: 0 <= i < |s| ==> !Strong(s[i])
  }

  predicate HasNoDigits(s: Line) {
    forall i :: 0 <= i < |s| ==> !W(s[i])
  }

  /**
    * A span that a second pass restores; `closed` when the line or a strong rune ends it. A group left
    * unsettled at the end of an open span must follow a strong rune and read the same both ways, unless
    * the span has no strong rune at all.
    */
  predicate SpanRestores(t: Ranges, s: Line, closed: bool)
    requires s != []
  {
    R(t, s[|s| - 1]) &&
    if closed then NoTail(s) && Ordered(s)
    else
      var k := OpenAt(s);
      NoStrong(s) ||
      (EntersOrdered(s[..k]) && (k == |s| || (k > 0 && Strong(s[k - 1]) && Palindrome(s[k..][..DigitsEnd(s[k..])]))))
  }

  lemma {:induction false} OpenSplits(s: Line)
    ensures var k := OpenAt(s);
            && NoTail(s[..k]) && (k < |s| ==> W(s[k])) && NoStrong(s[k..])
            && (k == |s| <==> NoTail(s))
    decreases |s|
  {
    hide W, N, NoTail, OpenAt, NoStrong, GroupLen;
    if s == [] {
      NothingOpen();
    } else if W(s[0]) && GroupLen(s) == |s| {
      AllOpen(s);
    } else {
      var m := OpenStep(s);
      var k := OpenAt(s[m..]);
      OpenSplits(s[m..]);
      assert s[..m + k][m..] == s[m..][..k] && s[m + k..] == s[m..][k..];
      if W(s[0]) {
        SettledGroup(s, m + k);
        NoTailStep(s);
      } else {
        NoTailSingle(s[..m + k]);
        NoTailSingle(s);
      }
    }
  }

  lemma NothingOpen()
    ensures OpenAt([]) == 0 && NoTail([]) && NoStrong([])
  {}

  lemma AllOpen(s: Line)
    requires s != [] && W(s[0]) && GroupLen(s) == |s|
    ensures OpenAt(s) == 0 && NoTail([]) && NoStrong(s) && !NoTail(s) && s[..0] == [] && s[0..] == s
  {}

  lemma OpenStep(s: Line) returns (m: nat)
    requires s != [] && !(W(s[0]) && GroupLen(s) == |s|)
    ensures 0 < m <= |s| && m == if W(s[0]) then GroupLen(s) else 1
    ensures OpenAt(s) == m + OpenAt(s[m..])
  {
    hide N;
    m := if W(s[0]) then GroupLen(s) else 1;
  }

  lemma NoTailSingle(s: Line)
    requires s != [] && !W(s[0])
    ensures NoTail(s) <==> NoTail(s[1..])
  {}

  /** Behind a settled group something strong stands, and it is not part of an open group. */
  lemma SettledGroup(s: Line, j: nat)
    requires s != [] && W(s[0]) && GroupLen(s) < |s| && GroupLen(s) <= j <= |s|
    requires NoTail(s[..j][GroupLen(s)..]) && (j < |s| ==> W(s[j]))
    ensures NoTail(s[..j])
  {
    hide W, N, NoTail;
    var m := GroupLen(s);
    assert Strong(s[m]) && j > m;
    GroupLenUnique(s[..j], m);
    NoTailStep(s[..j]);
  }

  lemma NoTailStep(s: Line)
    requires s != [] && W(s[0]) && GroupLen(s) < |s|
    ensures NoTail(s) <==> NoTail(s[GroupLen(s)..])
  {}

  lemma MirrorConcat(a: Line, b: Line)
    ensures MirrorAll(a + b) == MirrorAll(a) + MirrorAll(b)
  {}

  lemma MirrorRev(s: Line)
    ensures MirrorAll(Rev(s)) == Rev(MirrorAll(s))
  {
    RevAll(s);
    RevAll(MirrorAll(s));
  }

  /** Mirroring twice and reversing in between. */
  lemma MirrorRevMirror(t: Ranges, s: Line)
    requires ScratchOnly(t) && ValidText(s)
    ensures MirrorAll(Rev(MirrorAll(s))) == Rev(s)
    ensures ValidText(Rev(MirrorAll(s))) && NoStrong(s) == NoStrong(Rev(MirrorAll(s)))
    ensures HasNoDigits(s) == HasNoDigits(Rev(MirrorAll(s)))
  {
    hide Strong, W, N, R, ValidRune, Mirror;
    MirrorAllKeeps(t, s);
    MirrorRev(MirrorAll(s));
    SameClasses(t, s);
  }

  lemma SameClasses(t: Ranges, s: Line)
    requires ScratchOnly(t) && ValidText(s)
    ensures ValidText(Rev(MirrorAll(s))) && NoStrong(s) == NoStrong(Rev(MirrorAll(s)))
    ensures HasNoDigits(s) == HasNoDigits(Rev(MirrorAll(s)))
  {
    hide W, N, R, ValidRune, Mirror, Rev;
    MirrorAllKeeps(t, s);
    ReversedClasses(MirrorAll(s));
  }

  lemma ReversedClasses(m: Line)
    ensures ValidText(Rev(m)) == ValidText(m) && NoStrong(Rev(m)) == NoStrong(m)
    ensures HasNoDigits(Rev(m)) == HasNoDigits(m)
  {
    hide Strong, W, ValidRune;
    RevAll(m);
    RevAll(Rev(m));
    RevRev(m);
    assert forall i :: 0 <= i < |m| ==> m[i] == Rev(m)[|m| - 1 - i];
  }

  /** Without digits a list is just reversed and mirrored. */
  lemma {:induction false} NoDigitsOut(p: Line, closed: bool)
    requires HasNoDigits(p)
    ensures NoTail(p) && LaidOut(p, closed) == Rev(MirrorAll(p))
  {
    if p != [] {
      assert HasNoDigits(p[1..]);
      NoDigitsOut(p[1..], closed);
      assert MirrorAll(p)[1..] == MirrorAll(p[1..]);
    }
  }

  /** A settled list without strong runes has no digits. */
  lemma SettledNeutral(q: Line)
    requires NoTail(q) && NoStrong(q)
    ensures HasNoDigits(q)
  {
    forall i | 0 <= i < |q| ensures !W(q[i]) {
      SettledNeutralAt(q, i);
    }
  }

  lemma {:induction false} SettledNeutralAt(q: Line, i: nat)
    requires NoTail(q) && NoStrong(q) && i < |q|
    ensures !W(q[i])
  {
    if !W(q[0]) && i > 0 {
      SettledNeutralAt(q[1..], i - 1);
    }
  }

  /** A group before a strong rune comes out in its own order. */
  lemma GroupOut(g: Line, rest: Line, closed: bool)
    requires g != [] && W(g[0]) && NoStrong(g) && rest != [] && Strong(rest[0])
    ensures LaidOut(g + rest, closed) == LaidOut(rest, closed) + MirrorAll(g)
  {
    var s := g + rest;
    GroupLenUnique(s, |g|);
    assert s[..|g|] == g && s[|g|..] == rest;
  }

  /** A group that is open at the end of an open span comes out first, and reversed. */
  lemma OpenOut(a: Line, g: Line)
    requires NoTail(a) && g != [] && W(g[0]) && NoStrong(g)
    ensures LaidOut(a + g, false) == Rev(MirrorAll(g)) + LaidOut(a, true)
  {
    hide W, N, NoTail, LaidOut, MirrorAll, Rev;
    LaidOutConcat(a, g, false);
    OpenGroup(g);
  }

  lemma OpenGroup(g: Line)
    requires g != [] && W(g[0]) && NoStrong(g)
    ensures LaidOut(g, false) == Rev(MirrorAll(g))
  {
    hide Rev, MirrorAll, W;
    GroupLenUnique(g, |g|);
    assert g[..|g|] == g && g[|g|..] == [];
    assert LaidOut([], false) == [];
  }

  lemma NoStrongConcat(a: Line, b: Line)
    ensures NoStrong(a + b) <==> NoStrong(a) && NoStrong(b)
    ensures HasNoDigits(a + b) <==> HasNoDigits(a) && HasNoDigits(b)
    ensures ValidText(a + b) <==> ValidText(a) && ValidText(b)
  {
    var ab := a + b;
    assert forall i :: 0 <= i < |a| ==> a[i] == ab[i];
    assert forall i :: 0 <= i < |b| ==> b[i] == ab[|a| + i];
  }

  /** A settled list laid out, and laid out again as an open span. */
  lemma SettledTwice(t: Ranges, a: Line)
    requires ScratchOnly(t) && ValidText(a) && NoTail(a)
    ensures LaidOut(LaidOut(a, true), false) == a <==> EntersOrdered(a)
  {
    hide R, N, W, Mirror, LaidOut, NoTail, LeadsToDigits, Ordered, ValidText, GroupLen;
    if LeadsToDigits(a) {
      LeadTwice(t, a);
    } else {
      LaidOutTail(t, a);
      LaidOutSettled(LaidOut(a, true), false);
      LaidOutTwice(t, a);
    }
  }

  /** The parts of a settled list that leads to digits: neutral runes, the group, and the rest behind it. */
  lemma LeadParts(a: Line) returns (p: Line, d: Line, r: Line)
    requires NoTail(a) && LeadsToDigits(a)
    ensures a == p + (d + r) && HasNoDigits(p) && NoStrong(p)
    ensures d != [] && W(d[0]) && NoStrong(d) && r != [] && Strong(r[0])
    ensures EntersOrdered(a) <==> Rev(d) == d && Ordered(r)
  {
    hide W, N, Strong, NoTail, Ordered, Rev, LeadsToDigits, EntersOrdered, HasNoDigits, NoStrong, LeadLen, GroupLen;
    LeadNeutral(a);
    var k := LeadLen(a);
    var s := a[k..];
    p := a[..k];
    assert a == p + s && s[0] == a[k];
    SettledAfter(p, s);
    d, r := GroupHeadParts(s);
    EntersBy(a);
  }

  lemma GroupHeadParts(s: Line) returns (d: Line, r: Line)
    requires s != [] && W(s[0]) && NoTail(s)
    ensures d == s[..GroupLen(s)] && r == s[GroupLen(s)..] && s == d + r
    ensures d != [] && d[0] == s[0] && NoStrong(d) && r != [] && Strong(r[0])
  {
    hide W, N, Strong, NoTail, NoStrong, GroupLen;
    var k := GroupLen(s);
    NoTailGroup(s);
    GroupAtHead(s);
    d, r := s[..k], s[k..];
    assert d[0] == s[0] && r[0] == s[k];
  }

  lemma LeadNeutral(a: Line)
    requires LeadsToDigits(a)
    ensures HasNoDigits(a[..LeadLen(a)]) && NoStrong(a[..LeadLen(a)])
    ensures LeadLen(a) < |a| && W(a[LeadLen(a)])
  {
    hide W, N, LeadsToDigits;
  }

  lemma SettledAfter(p: Line, s: Line)
    requires NoTail(p + s) && HasNoDigits(p)
    ensures NoTail(s)
  {
    NoDigitsOut(p, true);
    PreReversedConcat(p, s, true);
  }

  lemma GroupAtHead(s: Line)
    requires s != [] && W(s[0]) && 0 < GroupLen(s) < |s|
    ensures NoStrong(s[..GroupLen(s)]) && Strong(s[GroupLen(s)])
  {
    hide W, N;
  }

  lemma EntersBy(a: Line)
    requires LeadsToDigits(a)
    ensures var s := a[LeadLen(a)..];
            EntersOrdered(a) <==> Rev(s[..GroupLen(s)]) == s[..GroupLen(s)] && Ordered(s[GroupLen(s)..])
  {
    hide LeadsToDigits, Ordered, Rev;
  }

  lemma NoTailGroup(s: Line)
    requires s != [] && W(s[0]) && NoTail(s)
    ensures 0 < GroupLen(s) < |s|
  {}

  lemma LeadTwice(t: Ranges, a: Line)
    requires ScratchOnly(t) && ValidText(a) && NoTail(a) && LeadsToDigits(a)
    ensures LaidOut(LaidOut(a, true), false) == a <==> EntersOrdered(a)
  {
    hide R, N, W, Mirror, MirrorAll, LaidOut, NoTail, LeadsToDigits, Ordered, ValidText, GroupLen, EntersOrdered,
         Rev, NoStrong, HasNoDigits;
    var p, d, r := LeadParts(a);
    NoStrongConcat(p, d + r);
    NoStrongConcat(d, r);
    LeadOut(t, p, d, r);
    LaidOutTwice(t, r);
    ThreeSame(p, Rev(d), LaidOut(LaidOut(r, true), true), d, r);
  }

  lemma ThreeSame<T>(p: seq<T>, c: seq<T>, x: seq<T>, d: seq<T>, r: seq<T>)
    requires |c| == |d|
    ensures p + (c + x) == p + (d + r) <==> c == d && x == r
  {
    SamePrefix(p, c + x, d + r);
    SameParts(c, x, d, r);
  }

  lemma SameParts<T>(a: seq<T>, b: seq<T>, c: seq<T>, d: seq<T>)
    requires |a| == |c|
    ensures a + b == c + d <==> a == c && b == d
  {
    if a + b == c + d {
      assert (a + b)[..|a|] == a && (c + d)[..|a|] == c;
      assert (a + b)[|a|..] == b && (c + d)[|a|..] == d;
    }
  }

  /** The group entered at the start comes back reversed. */
  lemma LeadOut(t: Ranges, p: Line, d: Line, r: Line)
    requires ScratchOnly(t) && ValidText(p) && ValidText(d) && ValidText(r) && HasNoDigits(p) && NoStrong(p)
    requires d != [] && W(d[0]) && NoStrong(d) && r != [] && Strong(r[0])
    ensures |Rev(d)| == |d|
    ensures LaidOut(LaidOut(p + (d + r), true), false) == p + (Rev(d) + LaidOut(LaidOut(r, true), true))
  {
    hide W, N, R, MirrorAll, LaidOut, NoTail, ValidText, NoStrong, HasNoDigits, LeadsToDigits;
    var b, h := LaidOut(r, true), MirrorAll(d) + Rev(MirrorAll(p));
    LeadFirst(p, d, r);
    LaidOutTail(t, r);
    StrongLeadsNowhere(r);
    GroupHead(t, d, p);
    OpenOut(b, h);
    LeadMirrored(t, p, d);
    Assoc(p, Rev(d), LaidOut(b, true));
  }

  lemma StrongLeadsNowhere(r: Line)
    requires r != [] && Strong(r[0])
    ensures !LeadsToDigits(r)
  {}

  lemma LeadFirst(p: Line, d: Line, r: Line)
    requires HasNoDigits(p) && d != [] && W(d[0]) && NoStrong(d) && r != [] && Strong(r[0])
    ensures LaidOut(p + (d + r), true) == LaidOut(r, true) + (MirrorAll(d) + Rev(MirrorAll(p)))
  {
    hide W, N, MirrorAll, LaidOut, NoTail, NoStrong, HasNoDigits, Rev;
    NoDigitsOut(p, true);
    LaidOutConcat(p, d + r, true);
    GroupOut(d, r, true);
    Assoc(LaidOut(r, true), MirrorAll(d), Rev(MirrorAll(p)));
  }

  lemma LeadMirrored(t: Ranges, p: Line, d: Line)
    requires ScratchOnly(t) && ValidText(p) && ValidText(d)
    ensures Rev(MirrorAll(MirrorAll(d) + Rev(MirrorAll(p)))) == p + Rev(d)
  {
    hide MirrorAll, Rev, ValidText;
    MirrorRevMirror(t, p);
    MirrorAllKeeps(t, d);
    MirrorConcat(MirrorAll(d), Rev(MirrorAll(p)));
    RevConcat(d, Rev(p));
    RevRev(p);
  }

  lemma GroupHead(t: Ranges, d: Line, p: Line)
    requires ScratchOnly(t) && ValidText(p) && ValidText(d) && NoStrong(p) && d != [] && W(d[0]) && NoStrong(d)
    ensures var h := MirrorAll(d) + Rev(MirrorAll(p)); h != [] && W(h[0]) && NoStrong(h)
  {
    hide W, N, R, Mirror, ValidText, Rev;
    MirrorAllKeeps(t, d);
    SameClasses(t, p);
    NoStrongConcat(MirrorAll(d), Rev(MirrorAll(p)));
  }

  /** The neutral runes at the end of an open group come out first, and come back. */
  lemma PeelEnd(t: Ranges, a: Line, e: Line, n: Line)
    requires ScratchOnly(t) && ValidText(e) && ValidText(n) && NoTail(a)
    requires e != [] && W(e[0]) && NoStrong(e + n) && HasNoDigits(n)
    ensures LaidOut(LaidOut(a + (e + n), false), false) == LaidOut(Rev(MirrorAll(e)) + LaidOut(a, true), false) + n
  {
    hide W, N, R, MirrorAll, LaidOut, NoTail, ValidText, NoStrong, HasNoDigits, Rev;
    var front, y := Rev(MirrorAll(n)), Rev(MirrorAll(e)) + LaidOut(a, true);
    OpenOut(a, e + n);
    MirrorConcat(e, n);
    RevConcat(MirrorAll(e), MirrorAll(n));
    Assoc(front, Rev(MirrorAll(e)), LaidOut(a, true));
    MirrorRevMirror(t, n);
    NoDigitsOut(front, true);
    LaidOutConcat(front, y, false);
    RevRev(n);
  }

  /** An open span without strong runes is just reversed, twice. */
  lemma NeutralTwice(t: Ranges, a: Line, e: Line)
    requires ScratchOnly(t) && ValidText(a) && ValidText(e) && NoTail(a) && NoStrong(a) && NoStrong(e)
    requires e != [] && W(e[|e| - 1])
    ensures LaidOut(Rev(MirrorAll(e)) + LaidOut(a, true), false) == a + e
  {
    hide W, N, R, Mirror, LaidOut, NoTail, ValidText, NoStrong, HasNoDigits;
    SettledNeutral(a);
    NoDigitsOut(a, true);
    var y := Rev(MirrorAll(a + e));
    MirrorConcat(a, e);
    RevConcat(MirrorAll(a), MirrorAll(e));
    NoStrongConcat(a, e);
    MirrorRevMirror(t, a + e);
    LastFirst(t, e);
    OpenGroup(y);
    RevRev(a + e);
  }

  /** A digit at the end is a digit at the start of what is reversed and mirrored. */
  lemma LastFirst(t: Ranges, e: Line)
    requires ScratchOnly(t) && ValidText(e) && e != []
    ensures var h := Rev(MirrorAll(e)); |h| == |e| && W(h[0]) == W(e[|e| - 1]) && R(t, h[0]) == R(t, e[|e| - 1])
  {
    hide W, N, R, Mirror, ValidText;
    MirrorAllKeeps(t, e);
    RevAll(MirrorAll(e));
  }

  /** Behind a strong rune the unsettled group comes back reversed, and the rest as if settled. */
  lemma StrongTwice(t: Ranges, a: Line, e: Line)
    requires ScratchOnly(t) && ValidText(a) && ValidText(e) && NoTail(a) && NoStrong(e)
    requires e != [] && W(e[|e| - 1]) && a != [] && Strong(a[|a| - 1])
    ensures LaidOut(Rev(MirrorAll(e)) + LaidOut(a, true), false) == a + e <==> EntersOrdered(a) && Palindrome(e)
  {
    hide W, N, R, MirrorAll, LaidOut, NoTail, ValidRune, NoStrong, EntersOrdered;
    var o := LaidOut(a, true);
    SettledEnds(a);
    MirrorStrong(t, a[|a| - 1]);
    LastFirst(t, e);
    MirrorRevMirror(t, e);
    GroupOut(Rev(MirrorAll(e)), o, false);
    SettledTwice(t, a);
    SameParts(LaidOut(o, false), Rev(e), a, e);
  }

  lemma MirrorStrong(t: Ranges, r: Rune)
    requires ScratchOnly(t) && ValidRune(r)
    ensures Strong(Mirror(r)) == Strong(r)
  {
    MirrorKeeps(t, r);
  }

  /** A list cut behind its last strong rune. */
  lemma {:induction false} SplitStrong(a: Line) returns (f: Line, q: Line)
    ensures a == f + q && NoStrong(q) && (f != [] ==> Strong(f[|f| - 1]))
  {
    if a == [] || Strong(a[|a| - 1]) {
      f, q := a, [];
    } else {
      var n := |a| - 1;
      f, q := SplitStrong(a[..n]);
      q := q + [a[n]];
      assert a == f + q;
    }
  }

  /** Neutral runes between the strong rune and the unsettled group are swallowed by it. */
  lemma SwallowedOpen(t: Ranges, f: Line, q: Line, e: Line)
    requires ScratchOnly(t) && ValidText(f + q) && ValidText(e) && NoTail(f + q) && NoStrong(q) && NoStrong(e)
    requires f != [] && Strong(f[|f| - 1]) && q != [] && e != [] && W(e[|e| - 1])
    ensures LaidOut(Rev(MirrorAll(e)) + LaidOut(f + q, true), false) != f + q + e
  {
    hide W, N, R, MirrorAll, LaidOut, NoTail, ValidRune, NoStrong, HasNoDigits, Rev;
    SettledFront(f);
    PreReversedConcat(f, q, true);
    SettledNeutral(q);
    NoDigitsOut(q, true);
    LaidOutConcat(f, q, true);
    SettledEnds(f);
    NoStrongConcat(f, q);
    MirrorStrong(t, f[|f| - 1]);
    var front, o := Rev(MirrorAll(e)) + Rev(MirrorAll(q)), LaidOut(f, true);
    Assoc(Rev(MirrorAll(e)), Rev(MirrorAll(q)), o);
    LastFirst(t, e);
    MirrorRevMirror(t, e);
    MirrorRevMirror(t, q);
    NoStrongConcat(Rev(MirrorAll(e)), Rev(MirrorAll(q)));
    GroupOut(front, o, false);
    MirrorConcat(Rev(MirrorAll(e)), Rev(MirrorAll(q)));
    LastReversed(q);
    OtherLast(LaidOut(o, false), Rev(e), Rev(q), f + q, e);
  }

  lemma {:induction false} SettledFront(f: Line)
    requires f != [] && Strong(f[|f| - 1])
    ensures NoTail(f)
  {
    var n := |f| - 1;
    assert f == f[..n] + [f[n]];
    StrongEnd(f[..n], f[n]);
  }

  lemma LastReversed(q: Line)
    requires q != [] && HasNoDigits(q)
    ensures Rev(q) != [] && !W(Rev(q)[|Rev(q)| - 1])
  {
    hide W;
    RevAll(q);
  }

  lemma OtherLast(x: Line, y: Line, q: Line, z: Line, e: Line)
    requires q != [] && !W(q[|q| - 1]) && e != [] && W(e[|e| - 1])
    ensures x + (y + q) != z + e
  {
    hide W;
    var l, m := x + (y + q), z + e;
    assert l[|l| - 1] == q[|q| - 1] && m[|m| - 1] == e[|e| - 1];
  }

  /** The first rune of an open span that is laid out is its last rune. */
  lemma FirstOpen(t: Ranges, s: Line)
    requires ScratchOnly(t) && ValidText(s) && s != []
    ensures R(t, LaidOut(s, false)[0]) <==> R(t, s[|s| - 1])
  {
    hide W, N, R, Mirror, NoTail, LaidOut, ValidRune, NoStrong, OpenAt;
    OpenSplits(s);
    var k := OpenAt(s);
    OpenAtBound(s);
    assert s == s[..k] + s[k..];
    if k == |s| {
      assert s[..k] == s;
      LaidOutSettled(s, false);
      SettledEnds(s);
      MirrorKeeps(t, s[|s| - 1]);
    } else {
      OpenOut(s[..k], s[k..]);
      NoStrongConcat(s[..k], s[k..]);
      LastFirst(t, s[k..]);
    }
  }

  lemma OpenAtBound(s: Line)
    ensures OpenAt(s) <= |s|
  {}

  /** An open span and its group: laid out twice. */
  lemma OpenGroupTwice(t: Ranges, a: Line, e: Line, n: Line)
    requires ScratchOnly(t) && ValidText(a) && ValidText(e) && ValidText(n) && NoTail(a)
    requires a != [] && e != [] && W(e[0]) && W(e[|e| - 1]) && NoStrong(e + n) && HasNoDigits(n)
    ensures var s := a + (e + n);
            LaidOut(LaidOut(s, false), false) == s <==>
            NoStrong(a) || (EntersOrdered(a) && Strong(a[|a| - 1]) && Palindrome(e))
  {
    hide W, N, R, MirrorAll, LaidOut, NoTail, ValidRune, NoStrong, HasNoDigits, Rev, EntersOrdered;
    PeelEnd(t, a, e, n);
    NoStrongConcat(e, n);
    Assoc(a, e, n);
    SameSuffix(LaidOut(Rev(MirrorAll(e)) + LaidOut(a, true), false), a + e, n);
    if NoStrong(a) {
      NeutralTwice(t, a, e);
    } else {
      var f, q := SplitStrong(a);
      NoStrongConcat(f, q);
      if q == [] {
        assert f == a;
        StrongTwice(t, a, e);
      } else {
        LastNeutral(a, q);
        NothingStrong(f);
        SwallowedOpen(t, f, q, e);
      }
    }
  }

  lemma NothingStrong(f: Line)
    ensures f == [] ==> NoStrong(f)
  {}

  lemma LastNeutral(a: Line, q: Line)
    requires NoStrong(q) && q != [] && |q| <= |a| && a[|a| - |q|..] == q
    ensures !Strong(a[|a| - 1])
  {
    assert a[|a| - 1] == q[|q| - 1];
  }

  lemma SameSuffix<T>(x: seq<T>, y: seq<T>, p: seq<T>)
    ensures x + p == y + p <==> x == y
  {
    if x + p == y + p {
      assert |x| == |y| && (x + p)[..|x|] == x && (y + p)[..|y|] == y;
    }
  }

  lemma NeutralEnters(s: Line)
    requires NoStrong(s) && NoTail(s)
    ensures EntersOrdered(s)
  {
    SettledNeutral(s);
    NoDigits(s);
  }

  lemma DigitsEndSplits(g: Line) returns (e: Line, n: Line)
    requires g != [] && W(g[0])
    ensures e == g[..DigitsEnd(g)] && g == e + n && HasNoDigits(n)
    ensures e != [] && W(e[0]) && W(e[|e| - 1])
  {
    hide W;
    var k := DigitsEnd(g);
    assert k > 0;
    e, n := g[..k], g[k..];
  }

  /** Laid out twice, an open span comes back exactly when it should. */
  lemma OpenTwice(t: Ranges, s: Line)
    requires ScratchOnly(t) && ValidText(s) && s != [] && R(t, s[0]) && R(t, s[|s| - 1])
    ensures LaidOut(LaidOut(s, false), false) == s <==> SpanRestores(t, s, false)
  {
    hide W, N, R, Mirror, NoTail, LaidOut, ValidRune, NoStrong, HasNoDigits, EntersOrdered, Palindrome, OpenAt,
         DigitsEnd;
    OpenSplits(s);
    OpenAtBound(s);
    var k := OpenAt(s);
    var a, g := s[..k], s[k..];
    assert s == a + g;
    NoStrongConcat(a, g);
    if k == |s| {
      assert a == s;
      LaidOutSettled(s, false);
      SettledTwice(t, s);
      if NoStrong(s) {
        NeutralEnters(s);
      }
    } else {
      DigitNotRtl2(t, s[0]);
      var e, n := DigitsEndSplits(g);
      NoStrongConcat(e, n);
      OpenGroupTwice(t, a, e, n);
    }
  }

  /** Without digits only the last rune matters. */
  lemma PlainSpanRestores(t: Ranges, s: Line, closed: bool)
    requires s != [] && HasNoDigits(s)
    ensures SpanRestores(t, s, closed) <==> R(t, s[|s| - 1])
  {
    hide W, N, R, NoTail, Ordered, LeadsToDigits, OpenAt;
    NoDigits(s);
    OpenSplits(s);
    assert s[..|s|] == s;
  }
}
