/**
 * `smart_summary` from api/index.py: an extractive "summary" made of the
 * first eight long sentence fragments of a text.  The text is split on runs
 * of sentence terminators (the regular expression `[.!?]+`), each fragment
 * is stripped, fragments of at most 20 characters are dropped, and the first
 * eight survivors become bullets cut to 100 characters, each followed by
 * an ellipsis whether or not anything was cut.
 */
module Summarizer {
  import opened PyStr

  /** Texts shorter than this get the fixed fallback message. */
  const MinTextLength: nat := 50
  /** A stripped fragment must be longer than this to be kept. */
  const MinSentenceLength: nat := 20
  /** At most this many fragments become bullets. */
  const MaxSentences: nat := 8
  /** A bullet shows at most this many characters of its fragment. */
  const BulletWidth: nat := 100

  const Fallback: string :=
    "\U{2022} No readable text found\n\U{2022} Try a different PDF/video\n\U{2022} Use text-based documents"
  const Header: string := "\U{2705} **MAIN POINTS EXTRACTED:**\n\n"
  const BulletMark: string := "\U{2022} "
  const Ellipsis: string := "...\n"

  // ---------------------------------------------------------------- re.split(r'[.!?]+', text)

  predicate IsTerminator(c: char) { c == '.' || c == '!' || c == '?' }

  predicate NoTerminator(s: string) {
    forall i :: 0 <= i < |s| ==> !IsTerminator(s[i])
  }

  /** A separator of the split: a non-empty run of terminators. */
  predicate IsRun(s: string) {
    s != [] && forall i :: 0 <= i < |s| ==> IsTerminator(s[i])
  }

  /** The first terminator at or after `from`, or `|s|` when there is none. */
  function FirstTerminator(s: string, from: nat): (k: nat)
    requires from <= |s|
    ensures from <= k <= |s|
    ensures k < |s| ==> IsTerminator(s[k])
    ensures forall j :: from <= j < k ==> !IsTerminator(s[j])
    decreases |s| - from
  {
    if from == |s| || IsTerminator(s[from]) then from else FirstTerminator(s, from + 1)
  }

  /** The end of the run of terminators that starts at `from`. */
  function RunEnd(s: string, from: nat): (k: nat)
    requires from <= |s|
    ensures from <= k <= |s|
    ensures k < |s| ==> !IsTerminator(s[k])
    ensures forall j :: from <= j < k ==> IsTerminator(s[j])
    decreases |s| - from
  {
    if from == |s| || !IsTerminator(s[from]) then from else RunEnd(s, from + 1)
  }

  /** `re.split(r'[.!?]+', s)`: the text between maximal runs of terminators. */
  function Fragments(s: string): (fs: seq<string>)
    ensures |fs| >= 1
    decreases |s|
  {
    var i := FirstTerminator(s, 0);
    if i == |s| then [s]
    else [s[..i]] + Fragments(s[RunEnd(s, i)..])
  }

  /** The runs of terminators `re.split` cut `s` at, in order. */
  function Runs(s: string): (rs: seq<string>)
    decreases |s|
  {
    var i := FirstTerminator(s, 0);
    if i == |s| then []
    else [s[i..RunEnd(s, i)]] + Runs(s[RunEnd(s, i)..])
  }

  /** Fragments and the runs between them, put back together. */
  function Weave(fs: seq<string>, rs: seq<string>): string
    requires |fs| == |rs| + 1
    decreases |rs|
  {
    if rs == [] then fs[0] else fs[0] + rs[0] + Weave(fs[1..], rs[1..])
  }

  /**
   * What `re.split(r'[.!?]+', s)` promises: `s` is its fragments with a
   * maximal run of terminators between each two; no fragment holds a
   * terminator, and only the first and the last fragment can be empty.
   */
  predicate IsSplitOf(s: string, fs: seq<string>, rs: seq<string>) {
    && |fs| == |rs| + 1
    && Weave(fs, rs) == s
    && (forall k :: 0 <= k < |fs| ==> NoTerminator(fs[k]))
    && (forall k :: 0 <= k < |rs| ==> IsRun(rs[k]))
    && (forall k :: 0 < k < |fs| - 1 ==> fs[k] != [])
  }

  /** A text whose first character is not a terminator starts with a non-empty fragment. */
  lemma {:induction false} FirstFragmentNonEmpty(t: string)
    requires t != [] && !IsTerminator(t[0])
    ensures Fragments(t)[0] != []
  {
  }

  /** `Fragments` and `Runs` are a split of `s` in the sense of `IsSplitOf`. */
  lemma {:induction false} FragmentsSplit(s: string)
    ensures IsSplitOf(s, Fragments(s), Runs(s))
    decreases |s|
  {
    var i := FirstTerminator(s, 0);
    if i == |s| {
      assert Fragments(s) == [s] && Runs(s) == [];
    } else {
      var j := RunEnd(s, i);
      var t := s[j..];
      FragmentsSplit(t);
      FragmentsStep(s);
      if |Fragments(t)| >= 2 {
        FirstFragmentNonEmpty(t);
      }
      SplitCons(s[..i], s[i..j], t, Fragments(t), Runs(t));
    }
  }

  /** One step of the split: the text up to the first terminator, the run there, and the rest. */
  lemma {:induction false} FragmentsStep(s: string)
    requires FirstTerminator(s, 0) < |s|
    ensures var i := FirstTerminator(s, 0);
      var j := RunEnd(s, i);
      && s == s[..i] + s[i..j] + s[j..]
      && Fragments(s) == [s[..i]] + Fragments(s[j..])
      && Runs(s) == [s[i..j]] + Runs(s[j..])
      && NoTerminator(s[..i]) && IsRun(s[i..j])
      && (j < |s| ==> !IsTerminator(s[j..][0]))
  {
    var i := FirstTerminator(s, 0);
    var j := RunEnd(s, i);
    assert s == s[..i] + s[i..j] + s[j..];
  }

  /** Putting a terminator-free fragment and a run in front of a split gives a split. */
  lemma {:induction false} SplitCons(f: string, r: string, t: string, fs: seq<string>, rs: seq<string>)
    requires IsSplitOf(t, fs, rs) && NoTerminator(f) && IsRun(r)
    requires |fs| >= 2 ==> fs[0] != []
    ensures IsSplitOf(f + r + t, [f] + fs, [r] + rs)
  {
    var fs', rs' := [f] + fs, [r] + rs;
    assert fs'[1..] == fs && rs'[1..] == rs;
    assert Weave(fs', rs') == f + r + t;
    assert forall k :: 0 < k < |fs'| ==> fs'[k] == fs[k - 1];
    assert forall k :: 0 < k < |rs'| ==> rs'[k] == rs[k - 1];
  }

  /**
   * A terminator-free fragment, a run and a rest that does not start with a
   * terminator: the split takes the fragment and the run off the front.
   */
  lemma {:induction false} FragmentsOfWeave(f: string, r: string, rest: string)
    requires NoTerminator(f) && IsRun(r)
    requires rest == [] || !IsTerminator(rest[0])
    ensures Fragments(f + r + rest) == [f] + Fragments(rest)
    ensures Runs(f + r + rest) == [r] + Runs(rest)
  {
    var s := f + r + rest;
    assert forall j :: 0 <= j < |f| ==> s[j] == f[j];
    assert forall j :: |f| <= j < |f| + |r| ==> s[j] == r[j - |f|];
    assert IsTerminator(s[|f|]);
    assert FirstTerminator(s, 0) == |f|;
    assert rest != [] ==> s[|f| + |r|] == rest[0];
    assert RunEnd(s, |f|) == |f| + |r|;
    assert s[..|f|] == f && s[|f|..|f| + |r|] == r && s[|f| + |r|..] == rest;
  }

  /** Everything after the first run of a split is again a split. */
  lemma {:induction false} SplitTail(s: string, fs: seq<string>, rs: seq<string>)
    requires IsSplitOf(s, fs, rs) && rs != []
    ensures IsSplitOf(Weave(fs[1..], rs[1..]), fs[1..], rs[1..])
    ensures s == fs[0] + rs[0] + Weave(fs[1..], rs[1..])
  {
    forall k | 0 < k < |fs[1..]| - 1
      ensures fs[1..][k] != []
    {
      assert fs[1..][k] == fs[k + 1];
    }
    forall k | 0 <= k < |fs[1..]|
      ensures NoTerminator(fs[1..][k])
    {
      assert fs[1..][k] == fs[k + 1];
    }
    forall k | 0 <= k < |rs[1..]|
      ensures IsRun(rs[1..][k])
    {
      assert rs[1..][k] == rs[k + 1];
    }
  }

  /** After the first run of a split comes nothing, or a non-terminator. */
  lemma {:induction false} SplitTailClean(s: string, fs: seq<string>, rs: seq<string>)
    requires IsSplitOf(s, fs, rs) && rs != []
    ensures var rest := Weave(fs[1..], rs[1..]); rest == [] || !IsTerminator(rest[0])
  {
    var rest := Weave(fs[1..], rs[1..]);
    if |rs| == 1 {
      assert rest == fs[1];
      assert |fs[1]| > 0 ==> !IsTerminator(fs[1][0]);
    } else {
      assert fs[1] != [];
      assert rest == fs[1] + rs[1] + Weave(fs[2..], rs[2..]);
      assert rest[0] == fs[1][0];
    }
  }

  /**
   * The split is unique: any decomposition of `s` with the properties
   * `re.split` promises is the one `Fragments` and `Runs` compute.
   */
  lemma {:induction false} SplitUnique(s: string, fs: seq<string>, rs: seq<string>)
    requires IsSplitOf(s, fs, rs)
    ensures fs == Fragments(s) && rs == Runs(s)
    decreases |rs|
  {
    if rs == [] {
      assert s == fs[0];
      assert FirstTerminator(s, 0) == |s|;
    } else {
      var rest := Weave(fs[1..], rs[1..]);
      SplitTail(s, fs, rs);
      SplitTailClean(s, fs, rs);
      FragmentsOfWeave(fs[0], rs[0], rest);
      SplitUnique(rest, fs[1..], rs[1..]);
      assert fs == [fs[0]] + fs[1..];
      assert rs == [rs[0]] + rs[1..];
    }
  }

  // ---------------------------------------------------------------- [s.strip() for s in ... if len(s.strip()) > 20][:8]

  /** `[s.strip() for s in sentences]`. */
  function StripAll(fs: seq<string>): (ts: seq<string>)
    ensures |ts| == |fs|
    ensures forall i :: 0 <= i < |fs| ==> ts[i] == Strip(fs[i])
  {
    seq(|fs|, i requires 0 <= i < |fs| => Strip(fs[i]))
  }

  /** The comprehension's condition `len(s.strip()) > 20`, on an already stripped fragment. */
  predicate IsLong(t: string) { |t| > MinSentenceLength }

  /** The comprehension's filter: the long ones among `ts`, in order. */
  function LongOnes(ts: seq<string>): (q: seq<string>)
    ensures |q| <= |ts|
    ensures forall k :: 0 <= k < |q| ==> IsLong(q[k])
    decreases |ts|
  {
    if ts == [] then []
    else (if IsLong(ts[0]) then [ts[0]] else []) + LongOnes(ts[1..])
  }

  /** `[s.strip() for s in sentences if len(s.strip()) > 20]`. */
  function Qualifying(fs: seq<string>): (q: seq<string>)
    ensures |q| <= |fs|
  {
    LongOnes(StripAll(fs))
  }

  function Shift(xs: seq<nat>): (ys: seq<nat>)
    ensures |ys| == |xs|
    ensures forall k :: 0 <= k < |xs| ==> ys[k] == xs[k] + 1
  {
    seq(|xs|, k requires 0 <= k < |xs| => xs[k] + 1)
  }

  /** The positions, in `ts`, of the elements the filter keeps. */
  function LongPositions(ts: seq<string>): seq<nat>
    decreases |ts|
  {
    if ts == [] then []
    else (if IsLong(ts[0]) then [0] else []) + Shift(LongPositions(ts[1..]))
  }

  /** One step of `LongPositions`: the head's position if it is kept, then the tail's shifted by one. */
  lemma {:induction false} PositionsStep(ts: seq<string>)
    requires ts != []
    ensures var h := if IsLong(ts[0]) then 1 else 0;
      && |LongPositions(ts)| == h + |LongPositions(ts[1..])|
      && (h == 1 ==> LongPositions(ts)[0] == 0)
      && forall m :: h <= m < |LongPositions(ts)| ==>
           LongPositions(ts)[m] == LongPositions(ts[1..])[m - h] + 1
  {
    var shifted := Shift(LongPositions(ts[1..]));
    if IsLong(ts[0]) {
      assert LongPositions(ts) == [0] + shifted;
    } else {
      assert LongPositions(ts) == shifted;
    }
  }

  /** The positions line up with the kept elements: the `k`-th kept one is the element at the `k`-th position. */
  lemma {:induction false} LongPositionsMatch(ts: seq<string>)
    ensures |LongPositions(ts)| == |LongOnes(ts)|
    ensures forall k :: 0 <= k < |LongOnes(ts)| ==>
      LongPositions(ts)[k] < |ts| && LongOnes(ts)[k] == ts[LongPositions(ts)[k]]
    decreases |ts|
  {
    if ts != [] {
      var tail := ts[1..];
      LongPositionsMatch(tail);
      PositionsStep(ts);
      var ps, q := LongPositions(ts), LongOnes(ts);
      var tps, tq := LongPositions(tail), LongOnes(tail);
      var h := if IsLong(ts[0]) then 1 else 0;
      assert q == (if h == 1 then [ts[0]] else []) + tq;
      forall k | 0 <= k < |q|
        ensures ps[k] < |ts| && q[k] == ts[ps[k]]
      {
        if k >= h {
          assert q[k] == tq[k - h];
          assert ts[ps[k]] == tail[tps[k - h]];
        }
      }
    }
  }

  /** The positions strictly increase: kept elements stay in their order of occurrence. */
  lemma {:induction false} LongPositionsIncrease(ts: seq<string>)
    ensures forall k1, k2 :: 0 <= k1 < k2 < |LongPositions(ts)| ==>
      LongPositions(ts)[k1] < LongPositions(ts)[k2]
    decreases |ts|
  {
    if ts != [] {
      LongPositionsIncrease(ts[1..]);
      PositionsStep(ts);
    }
  }

  lemma {:induction false} ExactStep(ts: seq<string>, i: nat)
    requires 0 < i < |ts|
    requires IsLong(ts[1..][i - 1]) <==> i - 1 in LongPositions(ts[1..])
    ensures IsLong(ts[i]) <==> i in LongPositions(ts)
  {
    assert ts[i] == ts[1..][i - 1];
    if i - 1 in LongPositions(ts[1..]) {
      ShiftedIn(ts, i);
    }
    if i in LongPositions(ts) {
      ShiftedBack(ts, i);
    }
  }

  /** A position of the tail, shifted by one, is a position of the whole. */
  lemma {:induction false} ShiftedIn(ts: seq<string>, i: nat)
    requires 0 < i < |ts| && i - 1 in LongPositions(ts[1..])
    ensures i in LongPositions(ts)
  {
    var ps, tps := LongPositions(ts), LongPositions(ts[1..]);
    var h := if IsLong(ts[0]) then 1 else 0;
    PositionsStep(ts);
    var m :| 0 <= m < |tps| && tps[m] == i - 1;
    assert ps[m + h] == i;
  }

  /** A non-zero position of the whole, shifted back by one, is a position of the tail. */
  lemma {:induction false} ShiftedBack(ts: seq<string>, i: nat)
    requires 0 < i < |ts| && i in LongPositions(ts)
    ensures i - 1 in LongPositions(ts[1..])
  {
    var ps, tps := LongPositions(ts), LongPositions(ts[1..]);
    var h := if IsLong(ts[0]) then 1 else 0;
    PositionsStep(ts);
    var m :| 0 <= m < |ps| && ps[m] == i;
    assert h <= m;
    assert tps[m - h] == i - 1;
  }

  /** A position is among them exactly when the element there is long. */
  lemma {:induction false} LongPositionsExact(ts: seq<string>)
    ensures forall i: nat :: i < |ts| ==> (IsLong(ts[i]) <==> i in LongPositions(ts))
    decreases |ts|
  {
    if ts != [] {
      LongPositionsExact(ts[1..]);
      PositionsStep(ts);
      forall i: nat | i < |ts|
        ensures IsLong(ts[i]) <==> i in LongPositions(ts)
      {
        if i > 0 {
          ExactStep(ts, i);
        } else if !IsLong(ts[0]) {
          assert forall m :: 0 <= m < |LongPositions(ts)| ==> LongPositions(ts)[m] > 0;
        }
      }
    }
  }

  /**
   * The comprehension keeps exactly the fragments whose stripped form is
   * longer than 20 characters, stripped, in the order they occur:
   * `Qualifying(fs)[k]` is the stripped fragment at the `k`-th of a strictly
   * increasing list of positions, and a position is in that list exactly when
   * its stripped fragment is long enough.
   */
  lemma {:induction false} QualifyingInOrder(fs: seq<string>)
    ensures |LongPositions(StripAll(fs))| == |Qualifying(fs)|
    ensures forall k :: 0 <= k < |Qualifying(fs)| ==>
      LongPositions(StripAll(fs))[k] < |fs| && Qualifying(fs)[k] == Strip(fs[LongPositions(StripAll(fs))[k]])
    ensures forall k1, k2 :: 0 <= k1 < k2 < |LongPositions(StripAll(fs))| ==>
      LongPositions(StripAll(fs))[k1] < LongPositions(StripAll(fs))[k2]
    ensures forall i: nat :: i < |fs| ==>
      (|Strip(fs[i])| > MinSentenceLength <==> i in LongPositions(StripAll(fs)))
  {
    var ts := StripAll(fs);
    LongPositionsMatch(ts);
    LongPositionsIncrease(ts);
    LongPositionsExact(ts);
  }

  /** The positions, among the text's fragments, of the ones that qualify. */
  function KeptPositions(text: string): seq<nat> {
    LongPositions(StripAll(Fragments(text)))
  }

  /** The fragments `smart_summary` turns into bullets: `[...][:8]`. */
  function Kept(text: string): (kept: seq<string>)
    ensures |kept| <= MaxSentences
  {
    Take(Qualifying(Fragments(text)), MaxSentences)
  }

  // ---------------------------------------------------------------- output

  /** `f"• {sentence[:100]}...\n"`. */
  function Bullet(sentence: string): string {
    BulletMark + Take(sentence, BulletWidth) + Ellipsis
  }

  /** The bullets for `ks`, in order. */
  function BulletLines(ks: seq<string>): string
    decreases |ks|
  {
    if ks == [] then [] else BulletLines(ks[..|ks| - 1]) + Bullet(ks[|ks| - 1])
  }

  /** `smart_summary(text)`. */
  function SmartSummary(text: string): string {
    if |text| < MinTextLength then Fallback else Header + BulletLines(Kept(text))
  }

  /**
   * `smart_summary` as the source runs it: the fallback for a short text,
   * otherwise the header followed by one `+=` per kept fragment.
   */
  method BuildSummary(text: string) returns (summary: string)
    ensures summary == SmartSummary(text)
  {
    if |text| < MinTextLength {
      return Fallback;
    }
    var sentences := Kept(text);
    summary := AppendBullets(Header, sentences);
  }

  /** The loop of `smart_summary`: `summary += f"• {sentence[:100]}...\n"` for each sentence. */
  method AppendBullets(head: string, sentences: seq<string>) returns (summary: string)
    ensures summary == head + BulletLines(sentences)
  {
    summary := head;
    assert head + BulletLines(sentences[..0]) == head;
    for i := 0 to |sentences|
      invariant summary == head + BulletLines(sentences[..i])
    {
      BulletLinesPrefix(sentences, i);
      AppendAssoc(head, BulletLines(sentences[..i]), Bullet(sentences[i]));
      summary := summary + Bullet(sentences[i]);
    }
    assert sentences[..|sentences|] == sentences;
  }

  // ---------------------------------------------------------------- properties

  /** Every text shorter than 50 characters gets the fallback, whatever it holds. */
  lemma {:induction false} ShortTextFallback(text: string)
    requires |text| < MinTextLength
    ensures SmartSummary(text) == Fallback
  {
  }

  /**
   * The bullet for a fragment is the bullet mark, the first `min(100, n)`
   * characters of the fragment and an ellipsis that is there even when
   * nothing was cut.
   */
  lemma {:induction false} BulletShape(sentence: string)
    ensures |Bullet(sentence)| == |BulletMark| + Min(BulletWidth, |sentence|) + |Ellipsis|
    ensures Bullet(sentence)[..|BulletMark|] == BulletMark
    ensures Bullet(sentence)[|Bullet(sentence)| - |Ellipsis|..] == Ellipsis
    ensures Bullet(sentence)[|BulletMark|..|Bullet(sentence)| - |Ellipsis|] == sentence[..Min(BulletWidth, |sentence|)]
    ensures |sentence| <= BulletWidth ==> Bullet(sentence) == BulletMark + sentence + Ellipsis
  {
  }

  /** Appending a bullet to the list appends its line to the output. */
  lemma {:induction false} BulletLinesAppend(ks: seq<string>, k: string)
    ensures BulletLines(ks + [k]) == BulletLines(ks) + Bullet(k)
  {
    assert (ks + [k])[..|ks|] == ks;
  }

  /** The bullets of one more element of a list are one more bullet line. */
  lemma {:induction false} BulletLinesPrefix(ks: seq<string>, i: nat)
    requires i < |ks|
    ensures BulletLines(ks[..i + 1]) == BulletLines(ks[..i]) + Bullet(ks[i])
  {
    assert ks[..i + 1][..i] == ks[..i];
  }

  /** The bullets of a concatenation are the concatenation of the bullets. */
  lemma {:induction false} BulletLinesConcat(xs: seq<string>, ys: seq<string>)
    ensures BulletLines(xs + ys) == BulletLines(xs) + BulletLines(ys)
    decreases |ys|
  {
    if ys != [] {
      var init := ys[..|ys| - 1];
      assert xs + ys == (xs + init) + [ys[|ys| - 1]];
      BulletLinesAppend(xs + init, ys[|ys| - 1]);
      BulletLinesConcat(xs, init);
      BulletLinesAppend(init, ys[|ys| - 1]);
      assert ys == init + [ys[|ys| - 1]];
    } else {
      assert xs + ys == xs;
    }
  }

  /** The bullets for a list are the bullet of its head followed by those of its tail. */
  lemma {:induction false} BulletLinesCons(ks: seq<string>)
    requires ks != []
    ensures BulletLines(ks) == Bullet(ks[0]) + BulletLines(ks[1..])
  {
    assert ks == [ks[0]] + ks[1..];
    BulletLinesConcat([ks[0]], ks[1..]);
    assert [ks[0]][..0] == [];
  }

  /**
   * For a text of at least 50 characters the output is the header followed by
   * one bullet for each of at most eight kept fragments; with no qualifying
   * fragment it is the header alone.
   */
  lemma {:induction false} LongTextShape(text: string)
    requires |text| >= MinTextLength
    ensures SmartSummary(text)[..|Header|] == Header
    ensures SmartSummary(text) == Header + BulletLines(Kept(text))
    ensures 1 <= |Kept(text)| <= MaxSentences ==>
      SmartSummary(text) == Header + Bullet(Kept(text)[0]) + BulletLines(Kept(text)[1..])
    ensures Qualifying(Fragments(text)) == [] ==> SmartSummary(text) == Header
  {
    HeaderThenBullets(Kept(text));
  }

  /** The header followed by the bullets of `ks`, peeled one bullet at the front. */
  lemma {:induction false} HeaderThenBullets(ks: seq<string>)
    ensures (Header + BulletLines(ks))[..|Header|] == Header
    ensures ks != [] ==> Header + BulletLines(ks) == Header + Bullet(ks[0]) + BulletLines(ks[1..])
    ensures ks == [] ==> Header + BulletLines(ks) == Header
  {
    if ks != [] {
      BulletLinesCons(ks);
      AppendAssoc(Header, Bullet(ks[0]), BulletLines(ks[1..]));
    }
  }

  /**
   * The kept fragments are the first `min(8, n)` of the `n` qualifying ones;
   * each is the stripped form of a `re.split` fragment of the text, and they
   * come in the order their fragments occur in the text.
   */
  lemma {:induction false} KeptFragments(text: string)
    ensures |KeptPositions(text)| == |Qualifying(Fragments(text))|
    ensures |Kept(text)| == Min(MaxSentences, |Qualifying(Fragments(text))|)
    ensures Kept(text) == Qualifying(Fragments(text))[..|Kept(text)|]
    ensures forall k :: 0 <= k < |Kept(text)| ==>
      && KeptPositions(text)[k] < |Fragments(text)|
      && Kept(text)[k] == Strip(Fragments(text)[KeptPositions(text)[k]])
    ensures forall k1, k2 :: 0 <= k1 < k2 < |Kept(text)| ==>
      KeptPositions(text)[k1] < KeptPositions(text)[k2]
  {
    QualifyingInOrder(Fragments(text));
  }

  /**
   * Every kept fragment is longer than 20 characters, holds no terminator
   * and neither starts nor ends with whitespace.
   */
  lemma {:induction false} KeptClean(text: string)
    ensures forall k :: 0 <= k < |Kept(text)| ==>
      && |Kept(text)[k]| > MinSentenceLength
      && NoTerminator(Kept(text)[k])
      && !IsSpace(Kept(text)[k][0])
      && !IsSpace(Kept(text)[k][|Kept(text)[k]| - 1])
  {
    var fs := Fragments(text);
    FragmentsClean(text);
    QualifyingClean(fs);
    PrefixKeepsClean(Qualifying(fs), Kept(text));
  }

  /** A prefix of a list of long, clean strings is again long and clean. */
  lemma {:induction false} PrefixKeepsClean(q: seq<string>, p: seq<string>)
    requires |p| <= |q| && p == q[..|p|]
    requires forall k :: 0 <= k < |q| ==>
      |q[k]| > MinSentenceLength && NoTerminator(q[k]) && !IsSpace(q[k][0]) && !IsSpace(q[k][|q[k]| - 1])
    ensures forall k :: 0 <= k < |p| ==>
      |p[k]| > MinSentenceLength && NoTerminator(p[k]) && !IsSpace(p[k][0]) && !IsSpace(p[k][|p[k]| - 1])
  {
    forall k | 0 <= k < |p|
      ensures |p[k]| > MinSentenceLength && NoTerminator(p[k])
      ensures !IsSpace(p[k][0]) && !IsSpace(p[k][|p[k]| - 1])
    {
      assert p[k] == q[k];
    }
  }

  /** No fragment holds a terminator. */
  lemma {:induction false} FragmentsClean(s: string)
    ensures forall k :: 0 <= k < |Fragments(s)| ==> NoTerminator(Fragments(s)[k])
    decreases |s|
  {
    var i := FirstTerminator(s, 0);
    if i < |s| {
      var t := s[RunEnd(s, i)..];
      FragmentsClean(t);
      assert forall k :: 0 < k < |Fragments(s)| ==> Fragments(s)[k] == Fragments(t)[k - 1];
    }
  }

  /** No terminator, and no whitespace at either end. */
  predicate Clean(t: string) {
    NoTerminator(t) && (t != [] ==> !IsSpace(t[0]) && !IsSpace(t[|t| - 1]))
  }

  /** What the comprehension keeps from terminator-free fragments is clean. */
  lemma {:induction false} QualifyingClean(fs: seq<string>)
    requires forall i :: 0 <= i < |fs| ==> NoTerminator(fs[i])
    ensures forall k :: 0 <= k < |Qualifying(fs)| ==>
      && |Qualifying(fs)[k]| > MinSentenceLength
      && NoTerminator(Qualifying(fs)[k])
      && !IsSpace(Qualifying(fs)[k][0])
      && !IsSpace(Qualifying(fs)[k][|Qualifying(fs)[k]| - 1])
  {
    var ts := StripAll(fs);
    forall i | 0 <= i < |ts|
      ensures Clean(ts[i])
    {
      StrippedFragmentClean(fs[i]);
      if ts[i] != [] {
        StripEnds(fs[i]);
      }
    }
    LongOnesClean(ts);
  }

  /** The filter keeps only elements of its input, so it keeps cleanliness. */
  lemma {:induction false} LongOnesClean(ts: seq<string>)
    requires forall i :: 0 <= i < |ts| ==> Clean(ts[i])
    ensures forall k :: 0 <= k < |LongOnes(ts)| ==> Clean(LongOnes(ts)[k])
    decreases |ts|
  {
    if ts != [] {
      LongOnesClean(ts[1..]);
      var h := if IsLong(ts[0]) then [ts[0]] else [];
      assert LongOnes(ts) == h + LongOnes(ts[1..]);
    }
  }

  /** A non-empty stripped string neither starts nor ends with whitespace. */
  lemma {:induction false} StripEnds(f: string)
    requires Strip(f) != []
    ensures !IsSpace(Strip(f)[0]) && !IsSpace(Strip(f)[|Strip(f)| - 1])
  {
  }

  /** Stripping a terminator-free fragment leaves it terminator-free. */
  lemma {:induction false} StrippedFragmentClean(f: string)
    requires NoTerminator(f)
    ensures NoTerminator(Strip(f))
  {
    var lo := Lead(f);
    forall i | 0 <= i < |Strip(f)|
      ensures !IsTerminator(Strip(f)[i])
    {
      assert Strip(f)[i] == f[lo + i];
    }
  }

  /**
   * A long enough text with no terminator and no surrounding whitespace is a
   * single fragment, so it is summarised as one bullet of itself.
   */
  lemma {:induction false} OneSentenceSummary(text: string)
    requires |text| >= MinTextLength && NoTerminator(text)
    requires !IsSpace(text[0]) && !IsSpace(text[|text| - 1])
    ensures SmartSummary(text) == Header + Bullet(text)
  {
    assert FirstTerminator(text, 0) == |text|;
    assert Fragments(text) == [text];
    StripUnchanged(text);
    assert StripAll([text]) == [text];
    assert LongOnes([text]) == [text] + LongOnes([text][1..]);
    assert Kept(text) == [text];
    assert BulletLines([text]) == BulletLines([]) + Bullet(text);
  }

  lemma {:induction false} NoTerminatorConcat(a: string, b: string)
    requires NoTerminator(a) && NoTerminator(b)
    ensures NoTerminator(a + b)
  {
    forall i | 0 <= i < |a + b|
      ensures !IsTerminator((a + b)[i])
    {
      if i < |a| {
        assert (a + b)[i] == a[i];
      } else {
        assert (a + b)[i] == b[i - |a|];
      }
    }
  }
}
