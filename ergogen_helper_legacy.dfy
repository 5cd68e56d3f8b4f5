/**
 * The earlier helper script's trace copy, which appends every source trace
 * without looking for duplicates, and how it compares with the current one.
 */
module ErgogenHelperLegacy {
  import opened Platform
  import opened BoardIo
  import opened ErgogenHelper

  /** Add raises first on pass k. */
  ghost predicate FirstRejected(s: seq<Trace>, k: nat, adds: seq<Reply>)
  {
    k < |s| && ReplyAt(adds, k).Fail? && forall i :: 0 <= i < k ==> ReplyAt(adds, i).Pass?
  }

  /**
   * copy_traces (earlier version): Add every source trace to the destination.
   * `srcReply` is how reading the source's tracks ends and `adds[i]` how Add
   * ends on pass i. A pass that raises stops the copy and leaves what was
   * appended before it.
   */
  method CopyTraces(src: Board, dst: Board, srcReply: Reply, adds: seq<Reply>) returns (r: Outcome<Error>)
    modifies dst
    ensures srcReply.Fail? ==> r == Fail(TracesUnreadable(srcReply.error)) && dst.tracks == old(dst.tracks)
    ensures srcReply.Pass? ==> (r.Pass? <==> forall i :: 0 <= i < |old(src.tracks)| ==> ReplyAt(adds, i).Pass?)
    ensures srcReply.Pass? && r.Pass? ==> dst.tracks == old(dst.tracks) + old(src.tracks)
    ensures srcReply.Pass? && r.Fail? ==>
              exists k: nat :: FirstRejected(old(src.tracks), k, adds)
                               && dst.tracks == old(dst.tracks) + old(src.tracks)[..k]
                               && r.error == CopyFailed(ReplyAt(adds, k).error)
  {
    var got := GetTraces(src, srcReply);
    if got.Failure? {
      return Fail(got.error);
    }
    var traces := got.value;
    ghost var d := dst.tracks;
    for i := 0 to |traces|
      invariant dst.tracks == d + traces[..i]
      invariant forall j :: 0 <= j < i ==> ReplyAt(adds, j).Pass?
    {
      var added := dst.Add(traces[i], ReplyAt(adds, i));
      if added.Fail? {
        assert FirstRejected(traces, i, adds);
        return Fail(CopyFailed(added.error));
      }
      assert traces[..i + 1] == traces[..i] + [traces[i]];
    }
    assert traces[..|traces|] == traces;
    return Pass;
  }

  /** No source trace has an equal trace in the destination or earlier in the source. */
  ghost predicate AllFresh(d: seq<Trace>, s: seq<Trace>)
  {
    forall i :: 0 <= i < |s| ==> !Has(d, s[i]) && !Has(s[..i], s[i])
  }

  /**
   * The two copies leave the same destination exactly when no source trace
   * has an equal trace in the destination or earlier in the source.
   */
  lemma DedupMatchesAppendAllIff(d: seq<Trace>, s: seq<Trace>)
    ensures Merged(d, s) == d + s <==> AllFresh(d, s)
  {
    MergedIsFilter(d, s);
    KeptWholeIff(d, s);
    if Merged(d, s) == d + s {
      assert Kept(d, s) == (d + s)[|d|..] == s;
    }
  }

  lemma AllFreshSplit(d: seq<Trace>, s: seq<Trace>)
    requires s != []
    ensures AllFresh(d, s) <==>
              AllFresh(d, s[..|s| - 1]) && !Has(d, s[|s| - 1]) && !Has(s[..|s| - 1], s[|s| - 1])
  {
    var init := s[..|s| - 1];
    assert forall i :: 0 <= i < |init| ==> s[..i] == init[..i];
  }

  lemma {:induction false} KeptWholeIff(d: seq<Trace>, s: seq<Trace>)
    ensures Kept(d, s) == s <==> AllFresh(d, s)
    decreases |s|
  {
    if s != [] {
      var init, t := s[..|s| - 1], s[|s| - 1];
      KeptWholeIff(d, init);
      AllFreshSplit(d, s);
      if Has(d, t) || Has(init, t) {
        assert |Kept(d, s)| < |s|;
      } else {
        assert Kept(d, s) == Kept(d, init) + [t];
        assert s == init + [t];
        if Kept(d, s) == s {
          assert Kept(d, init) == Kept(d, s)[..|init|];
        }
      }
    }
  }

  /** The current copy's destination is the earlier copy's with the duplicate source traces deleted. */
  lemma DedupIsSubsequenceOfAppendAll(d: seq<Trace>, s: seq<Trace>)
    ensures SubsequenceOf(Merged(d, s), d + s)
  {
    MergedIsFilter(d, s);
    KeptIsSubsequence(d, s);
    SubsequenceConcat(d, Kept(d, s), s);
  }

  /** Copying a board into itself: the current copy leaves it as it is, the earlier one doubles it. */
  lemma SelfMergeContrast(d: seq<Trace>)
    requires d != []
    ensures Merged(d, d) == d
    ensures Merged(d, d) != d + d
  {
    SelfMerge(d);
    assert |d + d| > |d|;
  }
}
