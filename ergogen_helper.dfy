/**
 * The current helper script's trace copy: trace identity, the membership
 * test, and the copy loop that skips every trace the destination already
 * has, counting the skips.
 */
module ErgogenHelper {
  import opened Platform
  import opened BoardIo

  /** check_traces_equal: same start and same end, exactly; nothing else is compared. */
  predicate TracesEqual(a: Trace, b: Trace): (r: bool)
    ensures r <==> a.(extra := b.extra) == b
  {
    a.start == b.start && a.end == b.end
  }

  /** The same segment walked the other way. */
  function Reversed(t: Trace): Trace
  {
    t.(start := t.end, end := t.start)
  }

  lemma TracesEqualSymmetric(a: Trace, b: Trace)
    ensures TracesEqual(a, b) <==> TracesEqual(b, a)
  {
  }

  /** Width, layer and net play no part: two traces are equal iff they differ at most there. */
  lemma TracesEqualIgnoresExtra(a: Trace, b: Trace, x: Extra, y: Extra)
    ensures TracesEqual(a, a.(extra := x))
    ensures TracesEqual(a, b) <==> TracesEqual(a.(extra := x), b.(extra := y))
  {
  }

  /** The pair is ordered: a segment equals its reversal only when it starts where it ends. */
  lemma TracesEqualOrdered(t: Trace)
    ensures TracesEqual(t, Reversed(t)) <==> t.start == t.end
  {
  }

  lemma TracesEqualEquivalence(a: Trace, b: Trace, c: Trace)
    ensures TracesEqual(a, a)
    ensures TracesEqual(a, b) && TracesEqual(b, c) ==> TracesEqual(a, c)
  {
  }

  /** Some trace in `ts` is equal to `t`. */
  ghost predicate Has(ts: seq<Trace>, t: Trace)
  {
    exists i :: 0 <= i < |ts| && TracesEqual(t, ts[i])
  }

  /**
   * pcb_has_trace: scans the board's tracks as they are now and stops at the
   * first equal one. Reading the tracks can raise; the reason is passed on.
   */
  method PcbHasTrace(pcb: Board, lookup: Trace, reply: Reply) returns (r: Result<bool, string>)
    ensures r.Success? <==> reply.Pass?
    ensures r.Success? ==> (r.value <==> Has(pcb.tracks, lookup))
    ensures r.Failure? ==> r.error == reply.error
  {
    var traces := pcb.GetTracks(reply);
    if traces.Failure? {
      return Failure(traces.error);
    }
    var ts := traces.value;
    for i := 0 to |ts|
      invariant forall j :: 0 <= j < i ==> !TracesEqual(lookup, ts[j])
    {
      if TracesEqual(lookup, ts[i]) {
        return Success(true);
      }
    }
    return Success(false);
  }

  /**
   * The destination after copying `s` into `d` with nothing raising: each
   * source trace in turn is appended unless the destination, as it has grown
   * so far, already has an equal one.
   */
  ghost function Merged(d: seq<Trace>, s: seq<Trace>): (m: seq<Trace>)
    ensures |d| <= |m| <= |d| + |s| && m[..|d|] == d
    decreases |s|
  {
    if s == [] then d
    else
      var m := Merged(d, s[..|s| - 1]);
      if Has(m, s[|s| - 1]) then m else m + [s[|s| - 1]]
  }

  /** How many source traces that copy skips. */
  ghost function Skipped(d: seq<Trace>, s: seq<Trace>): (n: nat)
    ensures n <= |s|
    decreases |s|
  {
    if s == [] then 0
    else Skipped(d, s[..|s| - 1]) + (if Has(Merged(d, s[..|s| - 1]), s[|s| - 1]) then 1 else 0)
  }

  /**
   * Reference definition of what the copy appends: the source traces, in
   * source order, that have no equal trace in the destination and no equal
   * trace earlier in the source.
   */
  ghost function Kept(d: seq<Trace>, s: seq<Trace>): (k: seq<Trace>)
    ensures |k| <= |s|
    ensures forall t :: t in k ==> t in s
    decreases |s|
  {
    if s == [] then []
    else
      var init, t := s[..|s| - 1], s[|s| - 1];
      Kept(d, init) + (if Has(d, t) || Has(init, t) then [] else [t])
  }

  lemma HasAppend(a: seq<Trace>, b: seq<Trace>, t: Trace)
    ensures Has(a + b, t) <==> Has(a, t) || Has(b, t)
  {
    if Has(a + b, t) {
      var i :| 0 <= i < |a + b| && TracesEqual(t, (a + b)[i]);
      if i >= |a| {
        assert TracesEqual(t, b[i - |a|]);
      }
    }
    if Has(a, t) {
      var i :| 0 <= i < |a| && TracesEqual(t, a[i]);
      assert (a + b)[i] == a[i];
    }
    if Has(b, t) {
      var i :| 0 <= i < |b| && TracesEqual(t, b[i]);
      assert (a + b)[|a| + i] == b[i];
    }
  }

  /** Up to equality, the merged destination holds exactly the traces of both boards. */
  lemma {:induction false} HasMergedIff(d: seq<Trace>, s: seq<Trace>, t: Trace)
    ensures Has(Merged(d, s), t) <==> Has(d, t) || Has(s, t)
    decreases |s|
  {
    if s != [] {
      var init, u := s[..|s| - 1], s[|s| - 1];
      assert s == init + [u];
      var m := Merged(d, init);
      HasMergedIff(d, init, t);
      HasAppend(init, [u], t);
      HasAppend(m, [u], t);
      if Has(m, u) && TracesEqual(t, u) {
        var i :| 0 <= i < |m| && TracesEqual(u, m[i]);
        assert TracesEqual(t, m[i]);
      }
    }
  }

  /** The merge appends exactly the reference filter's traces, and skips the rest. */
  lemma {:induction false} MergedIsFilter(d: seq<Trace>, s: seq<Trace>)
    ensures Merged(d, s) == d + Kept(d, s)
    ensures Skipped(d, s) == |s| - |Kept(d, s)|
    decreases |s|
  {
    if s != [] {
      var init, t := s[..|s| - 1], s[|s| - 1];
      MergedIsFilter(d, init);
      HasMergedIff(d, init, t);
    }
  }

  /**
   * The traces already on the destination stay, in their order, at its
   * front; it grows by exactly the number of traces not skipped.
   */
  lemma MergedKeepsDestination(d: seq<Trace>, s: seq<Trace>)
    ensures |Merged(d, s)| == |d| + |s| - Skipped(d, s)
    ensures Merged(d, s)[..|d|] == d
  {
    MergedIsFilter(d, s);
  }

  /** `a` can be had from `b` by deleting elements (matched greedily from the back). */
  ghost predicate SubsequenceOf(a: seq<Trace>, b: seq<Trace>)
    decreases |b|
  {
    a == [] ||
    (b != [] &&
     if a[|a| - 1] == b[|b| - 1] then SubsequenceOf(a[..|a| - 1], b[..|b| - 1])
     else SubsequenceOf(a, b[..|b| - 1]))
  }

  lemma {:induction false} SubsequenceDropLast(a: seq<Trace>, b: seq<Trace>)
    requires a != [] && SubsequenceOf(a, b)
    ensures SubsequenceOf(a[..|a| - 1], b)
    decreases |b|, 0
  {
    var a', b' := a[..|a| - 1], b[..|b| - 1];
    if a[|a| - 1] == b[|b| - 1] {
      if a' != [] {
        if a'[|a'| - 1] == b[|b| - 1] {
          SubsequenceDropLast(a', b');
        }
      }
    } else {
      SubsequenceDropLast(a, b');
      if a' != [] && a'[|a'| - 1] == b[|b| - 1] {
        SubsequenceDropLast(a', b');
      }
    }
  }

  /** A subsequence of a prefix stays a subsequence when `b` grows by one element. */
  lemma {:induction false} SubsequenceWeaken(a: seq<Trace>, b: seq<Trace>)
    requires b != [] && SubsequenceOf(a, b[..|b| - 1])
    ensures SubsequenceOf(a, b)
    decreases |b|, 1
  {
    if a != [] && a[|a| - 1] == b[|b| - 1] {
      SubsequenceDropLast(a, b[..|b| - 1]);
    }
  }

  lemma {:induction false} SubsequenceRefl(a: seq<Trace>)
    ensures SubsequenceOf(a, a)
    decreases |a|
  {
    if a != [] {
      SubsequenceRefl(a[..|a| - 1]);
    }
  }

  lemma {:induction false} SubsequenceExtend(a: seq<Trace>, b: seq<Trace>, c: seq<Trace>)
    requires SubsequenceOf(a, b)
    ensures SubsequenceOf(a, b + c)
    decreases |c|
  {
    if c == [] {
      assert b + c == b;
    } else {
      var c' := c[..|c| - 1];
      SubsequenceExtend(a, b, c');
      assert (b + c)[..|b + c| - 1] == b + c';
      SubsequenceWeaken(a, b + c);
    }
  }

  lemma {:induction false} SubsequenceConcat(d: seq<Trace>, k: seq<Trace>, s: seq<Trace>)
    requires SubsequenceOf(k, s)
    ensures SubsequenceOf(d + k, d + s)
    decreases |s|
  {
    if k == [] {
      SubsequenceRefl(d);
      SubsequenceExtend(d, d, s);
      assert d + k == d;
    } else {
      var s', u := s[..|s| - 1], s[|s| - 1];
      var k' := k[..|k| - 1];
      assert (d + s)[..|d + s| - 1] == d + s';
      if k[|k| - 1] == u {
        SubsequenceConcat(d, k', s');
        assert (d + k)[..|d + k| - 1] == d + k';
      } else {
        SubsequenceConcat(d, k, s');
      }
    }
  }

  /** The traces the copy appends appear in the source, in source order. */
  lemma {:induction false} KeptIsSubsequence(d: seq<Trace>, s: seq<Trace>)
    ensures SubsequenceOf(Kept(d, s), s)
    decreases |s|
  {
    if s != [] {
      var init, t := s[..|s| - 1], s[|s| - 1];
      KeptIsSubsequence(d, init);
      var k := Kept(d, init);
      if Has(d, t) || Has(init, t) {
        assert Kept(d, s) == k;
        SubsequenceWeaken(k, s);
      } else {
        assert Kept(d, s) == k + [t];
        assert (k + [t])[..|k|] == k;
      }
    }
  }

  /** Afterwards every source trace has an equal trace in the destination. */
  lemma MergedCoversSource(d: seq<Trace>, s: seq<Trace>)
    ensures forall i :: 0 <= i < |s| ==> Has(Merged(d, s), s[i])
  {
    forall i | 0 <= i < |s|
      ensures Has(Merged(d, s), s[i])
    {
      assert TracesEqual(s[i], s[i]);
      HasMergedIff(d, s, s[i]);
    }
  }

  /** No appended trace equals a trace before it, whether pre-existing or appended by the same copy. */
  lemma {:induction false} MergedAddsNoDuplicates(d: seq<Trace>, s: seq<Trace>)
    ensures var m := Merged(d, s);
      forall i, j :: 0 <= i < j < |m| && |d| <= j ==> !TracesEqual(m[i], m[j])
    decreases |s|
  {
    if s != [] {
      var init, t := s[..|s| - 1], s[|s| - 1];
      MergedAddsNoDuplicates(d, init);
      MergedKeepsDestination(d, init);
      var m := Merged(d, init);
      if !Has(m, t) {
        forall i | 0 <= i < |m|
          ensures !TracesEqual(m[i], t)
        {
          TracesEqualSymmetric(m[i], t);
        }
      }
    }
  }

  /** No trace the copy appends has an equal trace in the old destination. */
  lemma {:induction false} KeptAvoidsDestination(d: seq<Trace>, s: seq<Trace>)
    ensures forall t :: t in Kept(d, s) ==> !Has(d, t)
  {
    var k, m := Kept(d, s), Merged(d, s);
    MergedIsFilter(d, s);
    MergedAddsNoDuplicates(d, s);
    forall t | t in k
      ensures !Has(d, t)
    {
      var j :| 0 <= j < |k| && k[j] == t;
      assert m[|d| + j] == t;
      forall i | 0 <= i < |d|
        ensures !TracesEqual(t, d[i])
      {
        assert m[i] == d[i];
        TracesEqualSymmetric(t, d[i]);
      }
    }
  }

  /** When the destination already has every source trace, the copy skips them all and changes nothing. */
  lemma {:induction false} MergeOfPresentTraces(d: seq<Trace>, s: seq<Trace>)
    requires forall i :: 0 <= i < |s| ==> Has(d, s[i])
    ensures Merged(d, s) == d
    ensures Skipped(d, s) == |s|
    decreases |s|
  {
    if s != [] {
      var init := s[..|s| - 1];
      MergeOfPresentTraces(d, init);
    }
  }

  /** Merging a board into itself copies nothing and skips every trace. */
  lemma SelfMerge(d: seq<Trace>)
    ensures Merged(d, d) == d
    ensures Skipped(d, d) == |d|
  {
    forall i | 0 <= i < |d|
      ensures Has(d, d[i])
    {
      assert TracesEqual(d[i], d[i]);
    }
    MergeOfPresentTraces(d, d);
  }

  /** Copying the same traces a second time changes nothing. */
  lemma MergeIdempotent(d: seq<Trace>, s: seq<Trace>)
    ensures Merged(Merged(d, s), s) == Merged(d, s)
    ensures Skipped(Merged(d, s), s) == |s|
  {
    MergedCoversSource(d, s);
    MergeOfPresentTraces(Merged(d, s), s);
  }

  /** The counts printed after a copy: copied + skipped == total. */
  datatype CopyReport = CopyReport(copied: nat, skipped: nat, total: nat)

  /** One more pass of the copy: the trace is skipped if the grown destination has it, and appended otherwise. */
  lemma MergedStep(d: seq<Trace>, s: seq<Trace>, i: nat)
    requires i < |s|
    ensures var m := Merged(d, s[..i]);
      Merged(d, s[..i + 1]) == if Has(m, s[i]) then m else m + [s[i]]
    ensures Skipped(d, s[..i + 1]) == Skipped(d, s[..i]) + if Has(Merged(d, s[..i]), s[i]) then 1 else 0
  {
    assert s[..i + 1][..i] == s[..i];
  }

  /**
   * Whether the loop's pass over source trace i raises: reading the
   * destination's tracks raises, or the trace is new and Add raises.
   */
  ghost predicate StepFails(d: seq<Trace>, s: seq<Trace>, i: nat, lookups: seq<Reply>, adds: seq<Reply>)
    requires i < |s|
  {
    ReplyAt(lookups, i).Fail? || (!Has(Merged(d, s[..i]), s[i]) && ReplyAt(adds, i).Fail?)
  }

  /** The text of the exception raised on pass i. */
  function StepReason(i: nat, lookups: seq<Reply>, adds: seq<Reply>): string
  {
    if ReplyAt(lookups, i).Fail? then ReplyAt(lookups, i).error
    else if ReplyAt(adds, i).Fail? then ReplyAt(adds, i).error
    else ""
  }

  /** None of the first n passes raises. */
  ghost predicate NoneFails(d: seq<Trace>, s: seq<Trace>, n: nat, lookups: seq<Reply>, adds: seq<Reply>)
    requires n <= |s|
  {
    forall i :: 0 <= i < n ==> !StepFails(d, s, i, lookups, adds)
  }

  lemma NoneFailsStep(d: seq<Trace>, s: seq<Trace>, n: nat, lookups: seq<Reply>, adds: seq<Reply>)
    requires n < |s| && NoneFails(d, s, n, lookups, adds) && !StepFails(d, s, n, lookups, adds)
    ensures NoneFails(d, s, n + 1, lookups, adds)
  {
  }

  /** Pass k is the first pass that raises. */
  ghost predicate FirstFailure(d: seq<Trace>, s: seq<Trace>, k: nat, lookups: seq<Reply>, adds: seq<Reply>)
  {
    k < |s| && StepFails(d, s, k, lookups, adds) && forall i :: 0 <= i < k ==> !StepFails(d, s, i, lookups, adds)
  }

  /**
   * copy_traces: append each source trace to the destination unless the
   * destination (re-read on every pass) already has an equal one.
   * `srcReply` is how reading the source's tracks ends; `lookups[i]` and
   * `adds[i]` are how reading the destination's tracks and Add end on pass i.
   * A pass that raises stops the copy and leaves what was appended before it.
   */
  method CopyTraces(src: Board, dst: Board, srcReply: Reply, lookups: seq<Reply>, adds: seq<Reply>)
    returns (r: Result<CopyReport, Error>)
    modifies dst
    ensures srcReply.Fail? ==> r == Failure(TracesUnreadable(srcReply.error)) && dst.tracks == old(dst.tracks)
    ensures srcReply.Pass? ==>
              (r.Success? <==> forall i :: 0 <= i < |old(src.tracks)| ==> !StepFails(old(dst.tracks), old(src.tracks), i, lookups, adds))
    ensures srcReply.Pass? && r.Success? ==>
              dst.tracks == Merged(old(dst.tracks), old(src.tracks))
              && r.value.skipped == Skipped(old(dst.tracks), old(src.tracks))
              && r.value.total == |old(src.tracks)|
              && r.value.copied + r.value.skipped == r.value.total
              && |dst.tracks| == |old(dst.tracks)| + r.value.copied
    ensures srcReply.Pass? && r.Failure? ==>
              exists k: nat :: FirstFailure(old(dst.tracks), old(src.tracks), k, lookups, adds)
                          && dst.tracks == Merged(old(dst.tracks), old(src.tracks)[..k])
                          && r.error == CopyFailed(StepReason(k, lookups, adds))
  {
    var got := GetTraces(src, srcReply);
    if got.Failure? {
      return Failure(got.error);
    }
    var traces := got.value;
    ghost var d := dst.tracks;
    var skipped := 0;
    for i := 0 to |traces|
      invariant dst.tracks == Merged(d, traces[..i])
      invariant skipped == Skipped(d, traces[..i])
      invariant NoneFails(d, traces, i, lookups, adds)
    {
      MergedStep(d, traces, i);
      var present := PcbHasTrace(dst, traces[i], ReplyAt(lookups, i));
      if present.Failure? {
        assert FirstFailure(d, traces, i, lookups, adds);
        assert present.error == StepReason(i, lookups, adds);
        return Failure(CopyFailed(present.error));
      }
      if present.value {
        NoneFailsStep(d, traces, i, lookups, adds);
        skipped := skipped + 1;
        continue;
      }
      var added := dst.Add(traces[i], ReplyAt(adds, i));
      if added.Fail? {
        assert FirstFailure(d, traces, i, lookups, adds);
        assert added.error == StepReason(i, lookups, adds);
        return Failure(CopyFailed(added.error));
      }
      NoneFailsStep(d, traces, i, lookups, adds);
    }
    assert traces[..|traces|] == traces;
    MergedKeepsDestination(d, traces);
    return Success(CopyReport(|traces| - skipped, skipped, |traces|));
  }
}
