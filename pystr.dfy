/**
 * The few Python `str` operations the summariser relies on, written over
 * `seq<char>`: `strip()`, `s[:n]`, `sep in s`, `s.split(sep)` and
 * `s.replace(c, '')`.  A character is a Unicode scalar value; Python
 * strings can also hold lone surrogate code points, which are not modelled.
 */
module PyStr {

  datatype Option<T> = None | Some(value: T)

  function Min(a: nat, b: nat): nat { if a <= b then a else b }

  /** The characters Python's `str.isspace()` accepts, and `str.strip()` removes. */
  predicate IsSpace(c: char) {
    || ('\t' <= c <= '\r')                 // tab, line feed, vertical tab, form feed, carriage return
    || ('\U{1C}' <= c <= ' ')              // file/group/record/unit separators and space
    || c == '\U{85}' || c == '\U{A0}' || c == '\U{1680}'
    || ('\U{2000}' <= c <= '\U{200A}')
    || c == '\U{2028}' || c == '\U{2029}' || c == '\U{202F}' || c == '\U{205F}' || c == '\U{3000}'
  }

  /** ASCII letters and digits (Python's `isalnum` restricted to ASCII). */
  predicate IsAlnum(c: char) {
    ('a' <= c <= 'z') || ('A' <= c <= 'Z') || ('0' <= c <= '9')
  }

  /** Concatenation is associative; stated once so that proofs can cite it. */
  lemma {:induction false} AppendAssoc<T>(a: seq<T>, b: seq<T>, c: seq<T>)
    ensures (a + b) + c == a + (b + c)
  {
  }

  /** Python `s[:n]`, on strings and lists alike. */
  function Take<T>(s: seq<T>, n: nat): (r: seq<T>)
    ensures |r| == Min(n, |s|)
    ensures r == s[..|r|]
  {
    if n <= |s| then s[..n] else s
  }

  // ---------------------------------------------------------------- strip

  function TrimStart(s: string): (r: string)
    ensures |r| <= |s| && r == s[|s| - |r|..]
    ensures forall i :: 0 <= i < |s| - |r| ==> IsSpace(s[i])
    ensures r != [] ==> !IsSpace(r[0])
  {
    if s != [] && IsSpace(s[0]) then TrimStart(s[1..]) else s
  }

  function TrimEnd(s: string): (r: string)
    ensures |r| <= |s| && r == s[..|r|]
    ensures forall i :: |r| <= i < |s| ==> IsSpace(s[i])
    ensures r != [] ==> !IsSpace(r[|r| - 1])
  {
    if s != [] && IsSpace(s[|s| - 1]) then TrimEnd(s[..|s| - 1]) else s
  }

  /** Number of leading whitespace characters `strip()` drops. */
  function Lead(s: string): (n: nat)
    ensures n <= |s|
  {
    |s| - |TrimStart(s)|
  }

  /**
   * Python `s.strip()`: the infix of `s` left once every leading and every
   * trailing whitespace character is removed.
   */
  function Strip(s: string): (r: string)
    ensures Lead(s) + |r| <= |s|
    ensures r == s[Lead(s)..Lead(s) + |r|]
    ensures forall i :: 0 <= i < Lead(s) ==> IsSpace(s[i])
    ensures forall i :: Lead(s) + |r| <= i < |s| ==> IsSpace(s[i])
    ensures r != [] ==> !IsSpace(r[0]) && !IsSpace(r[|r| - 1])
  {
    TrimEnd(TrimStart(s))
  }

  /** `strip()` leaves alone a string that neither starts nor ends with whitespace. */
  lemma {:induction false} StripUnchanged(s: string)
    requires s != [] ==> !IsSpace(s[0]) && !IsSpace(s[|s| - 1])
    ensures Strip(s) == s
  {
    assert TrimStart(s) == s;
    assert TrimEnd(s) == s;
  }

  /** Stripping twice is stripping once. */
  lemma {:induction false} StripIdempotent(s: string)
    ensures Strip(Strip(s)) == Strip(s)
  {
    StripUnchanged(Strip(s));
  }

  // ---------------------------------------------------------------- find

  /** `pat` occurs in `s` starting at index `k`. */
  predicate OccursAt(s: string, pat: string, k: nat) {
    k + |pat| <= |s| && s[k..k + |pat|] == pat
  }

  /** `s` holds no occurrence of `pat`. */
  predicate Free(s: string, pat: string) {
    forall k: nat :: k <= |s| ==> !OccursAt(s, pat, k)
  }

  /** Python `s.find(pat, from)`: the first occurrence of `pat` at or after `from`. */
  function FindFrom(s: string, pat: string, from: nat): (r: Option<nat>)
    requires from <= |s|
    ensures r.Some? ==> from <= r.value && OccursAt(s, pat, r.value)
    ensures r.Some? ==> forall j: nat :: from <= j < r.value ==> !OccursAt(s, pat, j)
    ensures r.None? ==> forall j: nat :: from <= j ==> !OccursAt(s, pat, j)
    decreases |s| - from
  {
    if from + |pat| > |s| then None
    else if s[from..from + |pat|] == pat then Some(from)
    else FindFrom(s, pat, from + 1)
  }

  /** Python `pat in s`. */
  predicate Contains(s: string, pat: string) {
    FindFrom(s, pat, 0).Some?
  }

  /** Any occurrence of `pat` makes `pat in s` true. */
  lemma {:induction false} OccurrenceIsContained(s: string, pat: string, k: nat)
    requires OccursAt(s, pat, k)
    ensures Contains(s, pat)
  {
  }

  /** An occurrence of `big` holds, at the right offset, an occurrence of each infix of `big`. */
  lemma {:induction false} OccursInside(s: string, big: string, k: nat, small: string, off: nat)
    requires OccursAt(s, big, k)
    requires off + |small| <= |big| && big[off..off + |small|] == small
    ensures OccursAt(s, small, k + off)
  {
    forall i | 0 <= i < |small|
      ensures s[k + off + i] == small[i]
    {
      assert big[off + i] == small[i];
      assert s[k..k + |big|][off + i] == s[k + off + i];
    }
    assert s[k + off..k + off + |small|] == small;
  }

  /** When `pat` does not start anywhere inside `a`, it is first found right after `a`. */
  lemma {:induction false} FoundAfterScan(a: string, pat: string, b: string)
    requires forall j: nat :: j < |a| ==> !OccursAt(a + pat + b, pat, j)
    ensures FindFrom(a + pat + b, pat, 0) == Some(|a|)
  {
    var s := a + pat + b;
    assert s[|a|..|a| + |pat|] == pat;
    assert OccursAt(s, pat, |a|);
  }

  /** When the first character of `pat` is not in `a`, `pat` is first found right after `a`. */
  lemma {:induction false} FoundAfter(a: string, pat: string, b: string)
    requires pat != [] && pat[0] !in a
    ensures FindFrom(a + pat + b, pat, 0) == Some(|a|)
  {
    var s := a + pat + b;
    assert s[|a|..|a| + |pat|] == pat;
    assert OccursAt(s, pat, |a|);
    var r := FindFrom(s, pat, 0);
    if r.value < |a| {
      assert false;
    }
  }

  /** `pat` is not in `s` when one of its characters is not. */
  lemma {:induction false} MissingCharNotContained(s: string, pat: string, i: nat)
    requires i < |pat| && pat[i] !in s
    ensures !Contains(s, pat)
  {
    var r := FindFrom(s, pat, 0);
    if r.Some? {
      assert false;
    }
  }

  /** A character found once in `x + [c] + y`, and not in `x` or `y`, is only at `|x|`. */
  lemma {:induction false} OnlyAt(x: string, c: char, y: string)
    requires c !in x && c !in y
    ensures forall j :: 0 <= j < |x + [c] + y| && (x + [c] + y)[j] == c ==> j == |x|
  {
    var s := x + [c] + y;
    assert forall j :: 0 <= j < |x| ==> s[j] == x[j];
    assert forall j :: |x| < j < |s| ==> s[j] == y[j - |x| - 1];
  }

  /**
   * When the first character of `pat` occurs before `n` only at `p`, and `s`
   * differs from `pat` at offset `q` from there, `pat` starts nowhere before `n`.
   */
  lemma {:induction false} NoStartBefore(s: string, pat: string, n: nat, p: nat, q: nat)
    requires q < |pat| && p + q < |s| && s[p + q] != pat[q]
    requires forall j :: 0 <= j < n && j < |s| && s[j] == pat[0] ==> j == p
    ensures forall j: nat :: j < n ==> !OccursAt(s, pat, j)
  {
    forall j: nat | j < n
      ensures !OccursAt(s, pat, j)
    {
      if j + |pat| <= |s| {
        assert s[j..j + |pat|][0] == s[j];
        if j == p {
          assert s[j..j + |pat|][q] == s[p + q];
        }
      }
    }
  }

  /** `pat in s` is false when no occurrence starts anywhere. */
  lemma {:induction false} NotContained(s: string, pat: string)
    requires forall j: nat :: j <= |s| ==> !OccursAt(s, pat, j)
    ensures !Contains(s, pat)
  {
  }

  /** No occurrence of `pat` starts inside `a` when its first character is not in `a`. */
  lemma {:induction false} NoStartIn(a: string, pat: string, b: string)
    requires pat != [] && pat[0] !in a
    ensures forall j: nat :: j < |a| ==> !OccursAt(a + pat + b, pat, j)
  {
    var s := a + pat + b;
    forall j: nat | j < |a|
      ensures !OccursAt(s, pat, j)
    {
      assert s[j] == a[j];
      assert j + |pat| <= |s| ==> s[j..j + |pat|][0] == s[j];
    }
  }

  // ---------------------------------------------------------------- split

  /** Python `s.split(sep)` for a non-empty separator. */
  function Split(s: string, sep: string): (parts: seq<string>)
    requires sep != []
    ensures |parts| >= 1
    ensures |parts| >= 2 <==> Contains(s, sep)
    decreases |s|
  {
    match FindFrom(s, sep, 0)
    case None => [s]
    case Some(k) => [s[..k]] + Split(s[k + |sep|..], sep)
  }

  /** Python `sep.join(parts)`. */
  function Join(parts: seq<string>, sep: string): string
    requires |parts| >= 1
  {
    if |parts| == 1 then parts[0] else parts[0] + sep + Join(parts[1..], sep)
  }

  /** The text before the first occurrence of `sep` holds no occurrence of it. */
  lemma {:induction false} PrefixBeforeFirstIsFree(s: string, sep: string, k: nat)
    requires sep != [] && k <= |s|
    requires forall j: nat :: j < k ==> !OccursAt(s, sep, j)
    ensures Free(s[..k], sep)
  {
    forall j: nat | OccursAt(s[..k], sep, j)
      ensures false
    {
      assert s[..k][j..j + |sep|] == s[j..j + |sep|];
      assert OccursAt(s, sep, j);
    }
  }

  /** One step of `s.split(sep)`: the text before the first `sep`, then the split of the rest. */
  lemma {:induction false} SplitStep(s: string, sep: string)
    requires sep != [] && Contains(s, sep)
    ensures var k := FindFrom(s, sep, 0).value;
      && k + |sep| <= |s|
      && s == s[..k] + sep + s[k + |sep|..]
      && Split(s, sep) == [s[..k]] + Split(s[k + |sep|..], sep)
      && Free(s[..k], sep)
  {
    var k := FindFrom(s, sep, 0).value;
    assert s[k..k + |sep|] == sep;
    assert s == s[..k] + s[k..k + |sep|] + s[k + |sep|..];
    PrefixBeforeFirstIsFree(s, sep, k);
  }

  /** Splitting and joining again gives back the string. */
  lemma {:induction false} SplitJoin(s: string, sep: string)
    requires sep != []
    ensures Join(Split(s, sep), sep) == s
    decreases |s|
  {
    if Contains(s, sep) {
      var k := FindFrom(s, sep, 0).value;
      var rest := s[k + |sep|..];
      SplitStep(s, sep);
      SplitJoin(rest, sep);
      var parts := Split(s, sep);
      assert parts[1..] == Split(rest, sep);
    }
  }

  /** No piece of `s.split(sep)` holds the separator. */
  lemma {:induction false} SplitPiecesFree(s: string, sep: string)
    requires sep != []
    ensures forall i :: 0 <= i < |Split(s, sep)| ==> Free(Split(s, sep)[i], sep)
    decreases |s|
  {
    if Contains(s, sep) {
      var k := FindFrom(s, sep, 0).value;
      var rest := s[k + |sep|..];
      SplitStep(s, sep);
      SplitPiecesFree(rest, sep);
      var parts := Split(s, sep);
      forall i | 0 <= i < |parts|
        ensures Free(parts[i], sep)
      {
        if i > 0 {
          assert parts[i] == Split(rest, sep)[i - 1];
        }
      }
    }
  }

  /** The first piece of `s.split(sep)` is the text before the first occurrence of `sep`. */
  lemma {:induction false} SplitFirst(s: string, sep: string)
    requires sep != []
    ensures FindFrom(s, sep, 0).None? ==> Split(s, sep)[0] == s
    ensures FindFrom(s, sep, 0).Some? ==> Split(s, sep)[0] == s[..FindFrom(s, sep, 0).value]
  {
  }

  /**
   * The second piece of `s.split(sep)` is the first piece of what follows the
   * first occurrence of `sep`.
   */
  lemma {:induction false} SplitSecond(s: string, sep: string)
    requires sep != [] && Contains(s, sep)
    ensures Split(s, sep)[1] == Split(s[FindFrom(s, sep, 0).value + |sep|..], sep)[0]
  {
  }

  /**
   * When `sep` first starts right after `a` and does not come back, the
   * second piece of the split is everything after it.
   */
  lemma {:induction false} SecondPieceIsRest(a: string, sep: string, rest: string)
    requires sep != [] && sep[0] !in rest
    requires forall j: nat :: j < |a| ==> !OccursAt(a + sep + rest, sep, j)
    ensures Contains(a + sep + rest, sep) && Split(a + sep + rest, sep)[1] == rest
  {
    var u := a + sep + rest;
    FoundAfterScan(a, sep, rest);
    assert u[|a| + |sep|..] == rest;
    SplitSecond(u, sep);
    MissingCharNotContained(rest, sep, 0);
    SplitFirst(rest, sep);
  }

  /** Splitting on a character that `field` lacks, right where `tail` starts with it, gives `field` first. */
  lemma {:induction false} FirstPieceIsField(field: string, cut: char, tail: string)
    requires cut !in field && (tail == [] || tail[0] == cut)
    ensures Split(field + tail, [cut])[0] == field
  {
    var rest := field + tail;
    if tail == [] {
      assert rest == field;
      MissingCharNotContained(field, [cut], 0);
      SplitFirst(field, [cut]);
    } else {
      assert rest == field + [cut] + tail[1..];
      FoundAfter(field, [cut], tail[1..]);
      SplitFirst(rest, [cut]);
    }
  }

  // ---------------------------------------------------------------- replace

  /** Python `s.replace(c, '')` for a single character `c`. */
  function Remove(s: string, c: char): (r: string)
    ensures |r| <= |s|
    ensures forall i :: 0 <= i < |r| ==> r[i] != c
    ensures forall i :: 0 <= i < |r| ==> r[i] in s
    ensures forall i :: 0 <= i < |s| && s[i] != c ==> s[i] in r
    ensures c !in s ==> r == s
  {
    if s == [] then []
    else if s[0] == c then Remove(s[1..], c)
    else [s[0]] + Remove(s[1..], c)
  }

  /**
   * Removal works piece by piece, so the characters other than `c` stay in
   * their order and number; with the contract above on one-character
   * strings this determines `Remove` completely.
   */
  lemma {:induction false} RemoveConcat(a: string, b: string, c: char)
    ensures Remove(a + b, c) == Remove(a, c) + Remove(b, c)
    decreases |a|
  {
    if a == [] {
      assert a + b == b;
    } else {
      assert (a + b)[0] == a[0];
      assert (a + b)[1..] == a[1..] + b;
      RemoveConcat(a[1..], b, c);
      if a[0] != c {
        AppendAssoc([a[0]], Remove(a[1..], c), Remove(b, c));
      }
    }
  }
}
