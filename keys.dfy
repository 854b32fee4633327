/**
 * Composite keys. A task's key is its index path printed in decimal and joined
 * with '-' ("0-2-1"); the editor splits a key on '-' and turns every segment
 * back into a number with JavaScript's Number().
 */
module Keys {
  import opened Wrappers

  const Separator: char := '-'

  predicate IsDigit(c: char) {
    '0' <= c <= '9'
  }

  predicate AllDigits(s: string) {
    forall i :: 0 <= i < |s| ==> IsDigit(s[i])
  }

  function DigitChar(d: nat): (c: char)
    requires d < 10
    ensures IsDigit(c) && DigitValue(c) == d
  {
    ('0' as int + d) as char
  }

  function DigitValue(c: char): nat
    requires IsDigit(c)
  {
    c as int - '0' as int
  }

  /** The decimal text of n, as String(n) and `${n}` print a non-negative integer. */
  function NatToString(n: nat): (s: string)
    ensures |s| > 0 && AllDigits(s)
    ensures s[0] == '0' ==> s == "0"
  {
    if n < 10 then [DigitChar(n)] else NatToString(n / 10) + [DigitChar(n % 10)]
  }

  /** The value of a string of decimal digits; the empty string is 0. */
  function DecimalValue(s: string): nat
    requires AllDigits(s)
  {
    if s == [] then 0 else DecimalValue(s[..|s| - 1]) * 10 + DigitValue(s[|s| - 1])
  }

  /**
   * Number(segment) for the segments a split key can hold: a string of digits
   * (possibly empty, which JavaScript reads as 0) is that number; anything else
   * is NaN, which addresses no element of any list.
   */
  function ParseSegment(seg: string): (r: Option<nat>)
    ensures r.Some? <==> AllDigits(seg)
    ensures seg == [] ==> r == Some(0)
    ensures |seg| == 1 && IsDigit(seg[0]) ==> r == Some(DigitValue(seg[0]))
  {
    if AllDigits(seg) then
      assert |seg| == 1 ==> seg[..0] == [] && DecimalValue(seg) == DecimalValue(seg[..0]) * 10 + DigitValue(seg[0]);
      Some(DecimalValue(seg))
    else None
  }

  /** Number() ignores leading zeros: "00" and "007" read as 0 and 7. */
  lemma {:induction false} LeadingZeroIgnored(seg: string)
    requires AllDigits(seg)
    ensures ParseSegment(['0'] + seg) == ParseSegment(seg)
  {
    var z := ['0'] + seg;
    assert AllDigits(z) by {
      assert forall i :: 1 <= i < |z| ==> z[i] == seg[i - 1];
    }
    if seg == [] {
      assert z[..|z| - 1] == [];
    } else {
      var init := seg[..|seg| - 1];
      assert z[..|z| - 1] == ['0'] + init;
      assert z[|z| - 1] == seg[|seg| - 1];
      LeadingZeroIgnored(init);
    }
  }

  lemma {:induction false} ParseNatToString(n: nat)
    ensures ParseSegment(NatToString(n)) == Some(n)
  {
    var s := NatToString(n);
    if n < 10 {
      assert s[..|s| - 1] == [];
      assert DecimalValue(s) == DigitValue(DigitChar(n));
    } else {
      assert s[..|s| - 1] == NatToString(n / 10);
      ParseNatToString(n / 10);
    }
  }

  /** key.split('-'): never empty, no piece holds a '-', and the pieces join back to the key. */
  function Split(s: string): (r: seq<string>)
    ensures |r| > 0
    ensures forall i :: 0 <= i < |r| ==> Separator !in r[i]
    ensures Join(r) == s
  {
    if s == [] then [[]]
    else if s[0] == Separator then [[]] + Split(s[1..])
    else
      var rest := Split(s[1..]);
      assert Join(rest) == s[1..];
      assert rest == [rest[0]] + rest[1..];
      [[s[0]] + rest[0]] + rest[1..]
  }

  /** segments.join('-') */
  function Join(segs: seq<string>): string {
    if segs == [] then []
    else if |segs| == 1 then segs[0]
    else segs[0] + [Separator] + Join(segs[1..])
  }

  /** The first piece of a join is a prefix of it, followed by the separator if more pieces follow. */
  lemma {:induction false} JoinHead(segs: seq<string>)
    requires |segs| > 0
    ensures segs[0] <= Join(segs)
    ensures |segs| == 1 ==> Join(segs) == segs[0]
    ensures |segs| > 1 ==> |segs[0]| < |Join(segs)| && Join(segs)[|segs[0]|] == Separator
  {
  }

  lemma {:induction false} SplitPrefix(a: string, s: string)
    requires Separator !in a
    ensures Split(a + s) == [a + Split(s)[0]] + Split(s)[1..]
  {
    if a == [] {
      assert a + s == s;
      assert a + Split(s)[0] == Split(s)[0];
      assert Split(s) == [Split(s)[0]] + Split(s)[1..];
    } else {
      assert (a + s)[0] == a[0];
      assert (a + s)[1..] == a[1..] + s;
      SplitPrefix(a[1..], s);
      assert [a[0]] + (a[1..] + Split(s)[0]) == a + Split(s)[0];
    }
  }

  /** Splitting undoes joining when no piece holds the separator. */
  lemma {:induction false} SplitJoin(segs: seq<string>)
    requires |segs| > 0
    requires forall i :: 0 <= i < |segs| ==> Separator !in segs[i]
    ensures Split(Join(segs)) == segs
  {
    if |segs| == 1 {
      SplitPrefix(segs[0], []);
      assert segs[0] + [] == segs[0];
    } else {
      var tail := Join(segs[1..]);
      assert Join(segs) == segs[0] + ([Separator] + tail);
      SplitPrefix(segs[0], [Separator] + tail);
      assert ([Separator] + tail)[1..] == tail;
      SplitJoin(segs[1..]);
      assert Split([Separator] + tail) == [[]] + segs[1..];
      assert segs[0] + [] == segs[0];
      assert segs == [segs[0]] + segs[1..];
    }
  }

  /** The decimal segments of an index path. */
  function Segments(path: seq<nat>): (segs: seq<string>)
    ensures |segs| == |path|
  {
    if path == [] then [] else [NatToString(path[0])] + Segments(path[1..])
  }

  /** The composite key of the node at an index path. */
  function KeyOf(path: seq<nat>): string {
    Join(Segments(path))
  }

  /** Number() applied to every segment of a split key. */
  function Indices(segs: seq<string>): (idx: seq<Option<nat>>)
    ensures |idx| == |segs|
  {
    if segs == [] then [] else [ParseSegment(segs[0])] + Indices(segs[1..])
  }

  /** An index path seen as a sequence of successfully parsed segments. */
  function Somes(path: seq<nat>): (idx: seq<Option<nat>>)
    ensures |idx| == |path|
    ensures forall i :: 0 <= i < |path| ==> idx[i] == Some(path[i])
  {
    if path == [] then [] else [Some(path[0])] + Somes(path[1..])
  }

  lemma {:induction false} SegmentsHaveNoSeparator(path: seq<nat>)
    ensures forall i :: 0 <= i < |path| ==> Separator !in Segments(path)[i]
    ensures forall i :: 0 <= i < |path| ==> Segments(path)[i] == NatToString(path[i])
  {
    if path != [] {
      SegmentsHaveNoSeparator(path[1..]);
    }
  }

  lemma {:induction false} IndicesOfSegments(path: seq<nat>)
    ensures Indices(Segments(path)) == Somes(path)
  {
    if path != [] {
      ParseNatToString(path[0]);
      IndicesOfSegments(path[1..]);
    }
  }

  /** Splitting a node's key and parsing every segment gives back its index path. */
  lemma KeyRoundTrip(path: seq<nat>)
    requires |path| > 0
    ensures Split(KeyOf(path)) == Segments(path)
    ensures Indices(Split(KeyOf(path))) == Somes(path)
  {
    SegmentsHaveNoSeparator(path);
    SplitJoin(Segments(path));
    IndicesOfSegments(path);
  }

  lemma {:induction false} JoinSnoc(segs: seq<string>, x: string)
    requires |segs| > 0
    ensures Join(segs + [x]) == Join(segs) + [Separator] + x
  {
    if |segs| == 1 {
      assert (segs + [x])[1..] == [x];
    } else {
      assert (segs + [x])[1..] == segs[1..] + [x];
      JoinSnoc(segs[1..], x);
    }
  }

  lemma {:induction false} SegmentsSnoc(path: seq<nat>, c: nat)
    ensures Segments(path + [c]) == Segments(path) + [NatToString(c)]
  {
    if path == [] {
      assert path + [c] == [c];
    } else {
      assert (path + [c])[1..] == path[1..] + [c];
      SegmentsSnoc(path[1..], c);
    }
  }

  /** The key of the c-th child of the node at path is that node's key, '-', and c. */
  lemma KeyOfChild(path: seq<nat>, c: nat)
    requires |path| > 0
    ensures KeyOf(path + [c]) == KeyOf(path) + [Separator] + NatToString(c)
  {
    SegmentsSnoc(path, c);
    JoinSnoc(Segments(path), NatToString(c));
  }

  /**
   * The part of a key before its first '-' (const [primary] = key.split('-')):
   * a prefix of the key without '-', either the whole key or followed by a '-'.
   */
  function RootSegment(key: string): (r: string)
    ensures Separator !in r
    ensures r <= key
    ensures |r| < |key| ==> key[|r|] == Separator
    ensures Separator !in key ==> r == key
  {
    var segs := Split(key);
    JoinHead(segs);
    segs[0]
  }

  /** The root segment of a node's key is the decimal index of its root task. */
  lemma RootSegmentOfKey(path: seq<nat>)
    requires |path| > 0
    ensures RootSegment(KeyOf(path)) == NatToString(path[0])
  {
    KeyRoundTrip(path);
  }
}
