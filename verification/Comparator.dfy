/** `Slice::compare` (include/lldb/slice.h) and the bytewise comparator with its key shortening (util/comparator.cpp). */
module BytewiseComparator {
  import opened Bytes

  /** The sign of `memcmp` on the first n bytes. */
  function Memcmp(a: Bytes, b: Bytes, n: nat): int
    requires n <= |a| && n <= |b|
  {
    if n == 0 then 0
    else if a[0] < b[0] then -1
    else if a[0] > b[0] then 1
    else Memcmp(a[1..], b[1..], n - 1)
  }

  function Compare(a: Bytes, b: Bytes): int {
    var r := Memcmp(a, b, if |a| < |b| then |a| else |b|);
    if r == 0 then if |a| < |b| then -1 else if |a| > |b| then 1 else 0 else r
  }

  // ----- Lexicographic order

  /** The strings agree up to i. */
  predicate AgreeTo(a: Bytes, b: Bytes, i: nat) {
    i <= |a| && i <= |b| && forall j :: 0 <= j < i ==> a[j] == b[j]
  }

  /** At i, the end of a or a smaller byte. */
  predicate BelowAt(a: Bytes, b: Bytes, i: nat) {
    AgreeTo(a, b, i) && i < |b| && (i == |a| || a[i] < b[i])
  }

  /** a comes before b in the dictionary. */
  ghost predicate Less(a: Bytes, b: Bytes) {
    exists i :: BelowAt(a, b, i)
  }

  /** The length of the longest common prefix. */
  function Common(a: Bytes, b: Bytes): (n: nat)
    ensures AgreeTo(a, b, n) && (n < |a| && n < |b| ==> a[n] != b[n])
  {
    if a != [] && b != [] && a[0] == b[0] then
      var n := Common(a[1..], b[1..]);
      assert forall j :: 0 <= j < n ==> a[j + 1] == a[1..][j] == b[1..][j] == b[j + 1];
      n + 1
    else 0
  }

  lemma {:induction false} MemcmpIs(a: Bytes, b: Bytes, n: nat)
    requires n <= |a| && n <= |b|
    ensures var c := Common(a, b); Memcmp(a, b, n) == if c >= n then 0 else if a[c] < b[c] then -1 else 1
  {
    if n > 0 && a[0] == b[0] {
      MemcmpIs(a[1..], b[1..], n - 1);
    }
  }

  /** Where a string is below another, they first differ. */
  lemma BelowAtCommon(a: Bytes, b: Bytes, i: nat)
    requires BelowAt(a, b, i)
    ensures i == Common(a, b)
  {
  }

  lemma LessIs(a: Bytes, b: Bytes)
    ensures var c := Common(a, b); Less(a, b) <==> c < |b| && (c == |a| || a[c] < b[c])
  {
    var c := Common(a, b);
    if c < |b| && (c == |a| || a[c] < b[c]) {
      assert BelowAt(a, b, c);
    }
    if Less(a, b) {
      var i: nat :| BelowAt(a, b, i);
      BelowAtCommon(a, b, i);
    }
  }

  lemma {:induction false} CommonIsSymmetric(a: Bytes, b: Bytes)
    ensures Common(a, b) == Common(b, a)
  {
    if a != [] && b != [] && a[0] == b[0] {
      CommonIsSymmetric(a[1..], b[1..]);
    }
  }

  /** `compare` is the dictionary order. */
  lemma CompareIsLexicographic(a: Bytes, b: Bytes)
    ensures Compare(a, b) < 0 <==> Less(a, b)
    ensures Compare(a, b) > 0 <==> Less(b, a)
    ensures Compare(a, b) == 0 <==> a == b
  {
    var c := Common(a, b);
    MemcmpIs(a, b, if |a| < |b| then |a| else |b|);
    LessIs(a, b);
    CommonIsSymmetric(a, b);
    LessIs(b, a);
  }

  lemma LessIsTransitive(a: Bytes, b: Bytes, c: Bytes)
    requires Less(a, b) && Less(b, c)
    ensures Less(a, c)
  {
    var i: nat :| BelowAt(a, b, i);
    var j: nat :| BelowAt(b, c, j);
    var k := if i < j then i else j;
    assert BelowAt(a, c, k);
  }

  /** A string below another at a place they share bytes up to has them as its prefix. */
  lemma Between(a: Bytes, s: Bytes, b: Bytes, i: nat)
    requires Less(a, s) && Less(s, b) && AgreeTo(a, b, i)
    ensures AgreeTo(a, s, i)
  {
    var j: nat :| BelowAt(a, s, j);
    var k: nat :| BelowAt(s, b, k);
  }

  // ----- Shortening

  /** The separator shortens at i: the strings first differ there, and there is room for a byte in between. */
  predicate Splits(start: Bytes, limit: Bytes, i: nat) {
    i == Common(start, limit) && i < |start| && i < |limit| && start[i] < 255 && start[i] + 1 < limit[i]
  }

  /** The string cut after i, with the byte there one higher. */
  function Bumped(s: Bytes, i: nat): Bytes
    requires i < |s| && s[i] < 255
  {
    s[..i] + [s[i] + 1]
  }

  lemma CommonFrom(a: Bytes, b: Bytes, i: nat)
    requires AgreeTo(a, b, i) && (i == |a| || i == |b| || a[i] != b[i])
    ensures i == Common(a, b)
  {
  }

  /** A bumped string comes after the original. */
  lemma BumpedIsAbove(s: Bytes, i: nat)
    requires i < |s| && s[i] < 255
    ensures Less(s, Bumped(s, i)) && Bumped(s, i) != s
  {
    var r := Bumped(s, i);
    assert BelowAt(s, r, i);
  }

  /** A split yields a string strictly between, and no shorter string is. */
  lemma SplitIsShortest(start: Bytes, limit: Bytes, i: nat)
    requires Splits(start, limit, i)
    ensures Less(start, Bumped(start, i)) && Less(Bumped(start, i), limit) && |Bumped(start, i)| <= |start|
    ensures forall s :: Less(start, s) && Less(s, limit) ==> |s| >= |Bumped(start, i)|
  {
    var r := Bumped(start, i);
    BumpedIsAbove(start, i);
    assert BelowAt(r, limit, i);
    forall s | Less(start, s) && Less(s, limit)
      ensures |s| > i
    {
      Between(start, s, limit, i);
      if |s| == i {
        PrefixIsBelow(start, s, i);
      }
    }
  }

  lemma PrefixIsBelow(a: Bytes, s: Bytes, i: nat)
    requires AgreeTo(a, s, i) && |s| == i
    ensures !Less(a, s)
  {
  }

  /** `FindShortestSeparator`. */
  method FindShortestSeparator(start: Bytes, limit: Bytes) returns (r: Bytes)
    ensures r == start || (Less(start, r) && Less(r, limit) && |r| <= |start|)
    ensures r != start ==> forall s :: Less(start, s) && Less(s, limit) ==> |s| >= |r|
    ensures r != start <==> Splits(start, limit, Common(start, limit))
    ensures r != start ==> r == Bumped(start, Common(start, limit))
  {
    var minLength := if |start| < |limit| then |start| else |limit|;
    var diff := 0;
    while diff < minLength && start[diff] == limit[diff]
      invariant diff <= minLength && AgreeTo(start, limit, diff)
    {
      diff := diff + 1;
    }
    CommonFrom(start, limit, diff);
    r := start;
    if diff < minLength && start[diff] < 255 && start[diff] + 1 < limit[diff] {
      SplitIsShortest(start, limit, diff);
      BumpedIsAbove(start, diff);
      r := r[diff := r[diff] + 1];
      r := r[..diff + 1];
      assert r == Bumped(start, diff);
    }
  }

  /** The first n bytes are 255. */
  predicate AllMax(s: Bytes, n: nat) {
    n <= |s| && forall i :: 0 <= i < n ==> s[i] == 255
  }

  /** Nothing of at most n bytes comes after a string whose first n bytes are 255. */
  lemma AboveIsLonger(key: Bytes, s: Bytes, n: nat)
    requires AllMax(key, n) && Less(key, s)
    ensures |s| > n
  {
    var i: nat :| BelowAt(key, s, i);
  }

  /** How many bytes 255 a string starts with. */
  function LeadingMax(s: Bytes): (n: nat)
    ensures AllMax(s, n) && (n < |s| ==> s[n] != 255)
  {
    if s != [] && s[0] == 255 then
      var n := LeadingMax(s[1..]);
      assert forall i :: 0 < i < n + 1 ==> s[i] == s[1..][i - 1];
      n + 1
    else 0
  }

  lemma LeadingMaxIs(s: Bytes, n: nat)
    requires AllMax(s, n) && (n < |s| ==> s[n] != 255)
    ensures n == LeadingMax(s)
  {
  }

  /** `FindShortSuccessor`: the shortest string after the key that keeps its leading 255s, or the key of only those. */
  method FindShortSuccessor(key: Bytes) returns (r: Bytes)
    ensures r == key <==> AllMax(key, |key|)
    ensures r != key ==> Less(key, r) && |r| == LeadingMax(key) + 1 <= |key|
    ensures forall s :: Less(key, s) ==> if AllMax(key, |key|) then |s| > |r| else |s| >= |r|
  {
    r := key;
    var i := 0;
    while i < |key|
      invariant AllMax(key, i)
    {
      if key[i] != 255 {
        r := r[i := key[i] + 1];
        r := r[..i + 1];
        assert r == Bumped(key, i);
        BumpedIsAbove(key, i);
        LeadingMaxIs(key, i);
        forall s | Less(key, s)
          ensures |s| >= |r|
        {
          AboveIsLonger(key, s, i);
        }
        return;
      }
      i := i + 1;
    }
    forall s | Less(key, s)
      ensures |s| > |key|
    {
      AboveIsLonger(key, s, i);
    }
  }
}
