/** `Presser.PickCompressor`: every registered compressor is tried on the
    whole input, the shortest output wins (a strict `<`, so the earlier
    candidate keeps a tie), and the winner's marker is spliced into the loader
    source in place of `*type*`. */
module Selection {
  import opened Bytes
  import opened Results
  import opened Text
  import opened Codecs

  /** One trial: which compressor ran and what it produced. */
  datatype Trial = Trial(kind: CodecKind, output: seq<byte>)

  /** Every candidate's `Compress` applied once to the full input, in
      registration order. */
  function RunTrials(cands: seq<Compressor>, data: seq<byte>): (ts: seq<Trial>)
    ensures |ts| == |cands|
    ensures forall i :: 0 <= i < |cands| ==> ts[i] == Trial(cands[i].kind, cands[i].compress(data))
  {
    if |cands| == 0 then []
    else [Trial(cands[0].kind, cands[0].compress(data))] + RunTrials(cands[1..], data)
  }

  /** The winner: its position in the trial order, its class and the bytes
      stored as the payload. */
  datatype Choice = Choice(index: nat, kind: CodecKind, payload: seq<byte>)

  /** The selection loop from trial `i` on, carrying `best`, `bestLength` and
      the payload chosen so far. */
  function PickFrom(ts: seq<Trial>, i: nat, best: Option<Choice>, bestLength: int): Option<Choice>
    requires i <= |ts|
    decreases |ts| - i
  {
    if i == |ts| then best
    else if |ts[i].output| < bestLength then
      PickFrom(ts, i + 1, Some(Choice(i, ts[i].kind, ts[i].output)), |ts[i].output|)
    else PickFrom(ts, i + 1, best, bestLength)
  }

  /** The loop starts with no candidate and `bestLength = long.MaxValue`.
      None means `best` stayed null. */
  function PickCompressor(ts: seq<Trial>): Option<Choice> {
    PickFrom(ts, 0, None, Int64Max)
  }

  /** Trial `i` is strictly shorter than every earlier trial and no longer
      than any later one. */
  predicate IsFirstShortest(ts: seq<Trial>, i: nat) {
    && i < |ts|
    && (forall j :: 0 <= j < i ==> |ts[i].output| < |ts[j].output|)
    && (forall j :: i < j < |ts| ==> |ts[i].output| <= |ts[j].output|)
  }

  /** There is at most one first-shortest trial. */
  lemma FirstShortestUnique(ts: seq<Trial>, i: nat)
    requires IsFirstShortest(ts, i)
    ensures forall j: nat :: IsFirstShortest(ts, j) ==> j == i
  {
    forall j: nat | j < |ts| && j != i
      ensures !IsFirstShortest(ts, j)
    {
      if j < i {
        assert |ts[i].output| < |ts[j].output|;
      } else {
        assert |ts[j].output| >= |ts[i].output|;
      }
    }
  }

  /** What holds after the loop has looked at trials `0 .. i-1`. */
  predicate PickInvariant(ts: seq<Trial>, i: nat, best: Option<Choice>, bestLength: int) {
    && i <= |ts|
    && (best.None? ==> bestLength == Int64Max && forall j :: 0 <= j < i ==> |ts[j].output| >= Int64Max)
    && (best.Some? ==>
          && best.value.index < i
          && best.value == Choice(best.value.index, ts[best.value.index].kind, ts[best.value.index].output)
          && bestLength == |best.value.payload| < Int64Max
          && (forall j :: 0 <= j < best.value.index ==> bestLength < |ts[j].output|)
          && (forall j :: best.value.index < j < i ==> bestLength <= |ts[j].output|))
  }

  lemma {:induction false} PickFromSound(ts: seq<Trial>, i: nat, best: Option<Choice>, bestLength: int)
    requires PickInvariant(ts, i, best, bestLength)
    ensures var r := PickFrom(ts, i, best, bestLength);
            && (r.None? ==> forall j :: 0 <= j < |ts| ==> |ts[j].output| >= Int64Max)
            && (r.Some? ==> IsFirstShortest(ts, r.value.index)
                            && r.value == Choice(r.value.index, ts[r.value.index].kind, ts[r.value.index].output)
                            && |r.value.payload| < Int64Max)
    decreases |ts| - i
  {
    if i < |ts| {
      if |ts[i].output| < bestLength {
        PickFromSound(ts, i + 1, Some(Choice(i, ts[i].kind, ts[i].output)), |ts[i].output|);
      } else {
        PickFromSound(ts, i + 1, best, bestLength);
      }
    }
  }

  /** The chosen trial is the first of the shortest: no trial is shorter
      (optimality), every earlier trial is strictly longer (a tie keeps the
      earlier candidate), and the stored payload is exactly that trial's
      output. Nothing is chosen only when no output is shorter than
      `long.MaxValue`, in particular for an empty candidate list. */
  lemma PickCompressorChoosesFirstShortest(ts: seq<Trial>)
    ensures var r := PickCompressor(ts);
            && (r.None? <==> forall j :: 0 <= j < |ts| ==> |ts[j].output| >= Int64Max)
            && (r.Some? ==>
                  && r.value.index < |ts|
                  && r.value.kind == ts[r.value.index].kind
                  && r.value.payload == ts[r.value.index].output
                  && (forall j :: 0 <= j < |ts| ==> |r.value.payload| <= |ts[j].output|)
                  && (forall j :: 0 <= j < r.value.index ==> |r.value.payload| < |ts[j].output|))
  {
    PickFromSound(ts, 0, None, Int64Max);
  }

  /** The converse: the first-shortest trial, when shorter than
      `long.MaxValue`, is the one chosen. */
  lemma FirstShortestIsChosen(ts: seq<Trial>, i: nat)
    requires IsFirstShortest(ts, i) && |ts[i].output| < Int64Max
    ensures PickCompressor(ts) == Some(Choice(i, ts[i].kind, ts[i].output))
  {
    PickFromSound(ts, 0, None, Int64Max);
    var r := PickCompressor(ts);
    assert r.Some?;
    FirstShortestUnique(ts, i);
  }

  const TypePlaceholder: string := "*type*"

  /** The three type tests after the loop. Only the winner's class matches,
      so exactly one replacement is made. */
  function ApplyMarker(src: string, k: CodecKind): string {
    var s1 := if k == Gzip then ReplaceAll(src, TypePlaceholder, "0") else src;
    var s2 := if k == QuickLz then ReplaceAll(s1, TypePlaceholder, "1") else s1;
    if k == Lzma then ReplaceAll(s2, TypePlaceholder, "2") else s2
  }

  /** The loader source is cut at every `*type*`; the pieces are kept and
      rejoined with the winner's marker, and no `*type*` is left. */
  lemma ApplyMarkerSplicesMarker(src: string, k: CodecKind)
    ensures var segs := Split(src, TypePlaceholder);
            var r := ApplyMarker(src, k);
            && src == Join(segs, TypePlaceholder)
            && r == Join(segs, MarkerText(k))
            && !Contains(r, TypePlaceholder)
  {
    assert ApplyMarker(src, k) == ReplaceAll(src, TypePlaceholder, MarkerText(k));
    ReplaceAllIsSplitJoin(src, TypePlaceholder, MarkerText(k));
    NoOccurrenceLeft(src, TypePlaceholder, MarkerText(k));
  }
}
