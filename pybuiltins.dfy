/** The few Python built-ins the resolver leans on, with Python's own semantics:
    `bytes` values, slicing that clamps instead of failing, `bytes.find`,
    `str.join`, `None` and truthiness. */
module PyBuiltins {

  /** One octet of a datagram, as indexing a Python `bytes` value yields it. */
  type Byte = b: int | 0 <= b < 256

  /** `None` or a value. */
  datatype Option<+T> = None | Some(value: T)

  function Min(a: int, b: int): int { if a <= b then a else b }

  /** `s[lo:]` for a non-negative `lo`: a start past the end gives the empty value. */
  function SliceFrom<T>(s: seq<T>, lo: nat): (r: seq<T>)
    ensures |r| == if lo <= |s| then |s| - lo else 0
    ensures lo <= |s| ==> r == s[lo..]
  {
    if lo <= |s| then s[lo..] else []
  }

  /** `s[:stop]`: a negative `stop` counts from the end, and both ends are clamped. */
  function SliceTo<T>(s: seq<T>, stop: int): (r: seq<T>)
    ensures r <= s
    ensures stop >= 0 ==> |r| == Min(stop, |s|)
    ensures stop < 0 ==> |r| == if |s| + stop >= 0 then |s| + stop else 0
  {
    if stop >= 0 then s[..Min(stop, |s|)]
    else if |s| + stop >= 0 then s[..|s| + stop]
    else []
  }

  /** `s[lo:hi]` for non-negative bounds: both are clamped to the length, so
      a span that runs past the end is cut short rather than refused. */
  function Slice<T>(s: seq<T>, lo: nat, hi: nat): (r: seq<T>)
  {
    var l := Min(lo, |s|);
    var h := Min(hi, |s|);
    if l <= h then s[l..h] else []
  }

  /** What the clamping of `s[lo:hi]` amounts to, case by case. */
  lemma SliceClamps<T>(s: seq<T>, lo: nat, hi: nat)
    ensures lo <= hi <= |s| ==> Slice(s, lo, hi) == s[lo..hi]
    ensures lo <= |s| <= hi ==> Slice(s, lo, hi) == s[lo..]
    ensures |s| < lo || hi <= lo ==> Slice(s, lo, hi) == []
    ensures |Slice(s, lo, hi)| == if lo <= hi then Min(hi, |s|) - Min(lo, |s|) else 0
  {
  }

  lemma ConcatAssoc<T>(a: seq<T>, b: seq<T>, c: seq<T>)
    ensures a + (b + c) == a + b + c
  {
  }

  lemma HeadTail<T>(s: seq<T>)
    requires s != []
    ensures s == [s[0]] + s[1..]
  {
  }

  lemma SplitAt<T>(s: seq<T>, n: nat)
    requires n <= |s|
    ensures s[..n] + s[n..] == s
  {
  }

  /** `s.find(x)` for a single byte: the index of its first occurrence, or -1. */
  function Find<T(==)>(s: seq<T>, x: T): (r: int)
    ensures r == -1 <==> x !in s
    ensures r != -1 ==> 0 <= r < |s| && s[r] == x && x !in s[..r]
  {
    if s == [] then -1
    else if s[0] == x then 0
    else
      var k := Find(s[1..], x);
      if k == -1 then -1 else k + 1
  }

  /** `sep.join(parts)`. */
  function Join(parts: seq<string>, sep: string): (r: string)
  {
    if parts == [] then ""
    else if |parts| == 1 then parts[0]
    else parts[0] + sep + Join(parts[1..], sep)
  }

  /** A joined text is empty exactly when there is nothing to join or one
      empty part: two or more parts carry at least one separator. */
  lemma JoinEmptyIff(parts: seq<string>, sep: string)
    requires sep != ""
    ensures Join(parts, sep) == "" <==> parts == [] || parts == [""]
  {
    if |parts| >= 2 {
      assert |Join(parts, sep)| >= |sep|;
    }
  }

  /** The joined text starts with the first part. */
  lemma JoinStartsWithFirst(parts: seq<string>, sep: string)
    requires parts != []
    ensures parts[0] <= Join(parts, sep)
  {
  }

  /** Python truthiness of an optional string: `None` and `""` are both falsy. */
  predicate Truthy(s: Option<string>)
    ensures !Truthy(s) <==> s == None || s == Some("")
  {
    s.Some? && s.value != ""
  }
}
