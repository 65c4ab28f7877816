/** The text chunker: `sendTextInChunks` cuts a long reply into pieces of at
    most 1950 characters, preferring to cut just before a whitespace
    character, and sends the first piece as a reply to the triggering message
    and every later piece as a plain channel message. The length rule that
    decides between one reply and the chunker is `SendResponse`.

    Sends are modelled as entries appended to an outgoing log. */
module Chunker {
  import opened Text

  /** Longest piece the bot sends in one message. */
  const MaxLength: nat := 1950

  /** One outgoing message: a reply to the triggering message, or a plain
      message to the same channel. */
  datatype Send = Send(isReply: bool, content: string)

  /** The half-open stretch `text[lo..hi)` that one loop iteration sends. */
  datatype Span = Span(lo: nat, hi: nat)

  /** What the source loop does with a text: it either ends after cutting the
      listed spans, or it reaches offset `at` where the cut falls back to
      `at` itself, and from there it never advances. */
  datatype Plan = Cuts(spans: seq<Span>) | Stalls(at: nat)

  /** `/\s/.test(text[k])`. Past the end `text[k]` is `undefined`, which the
      test reads as the word "undefined": never whitespace. */
  predicate SpaceAt(text: string, k: nat)
  {
    k < |text| && IsSpace(text[k])
  }

  /** The inner loop: from `end`, step back while `end > offset` and
      `text[end]` is not whitespace. Result: the largest index in
      `(offset, end]` holding whitespace, or `offset` when there is none. */
  function BackUp(text: string, offset: nat, end: nat): (r: nat)
    requires offset <= end
    ensures offset <= r <= end
    ensures r == offset || SpaceAt(text, r)
    ensures forall k :: r < k <= end ==> !SpaceAt(text, k)
    decreases end - offset
  {
    if end > offset && !SpaceAt(text, end) then BackUp(text, offset, end - 1) else end
  }

  /** Where one iteration of the outer loop cuts, starting at `offset`. */
  function CutAt(text: string, offset: nat): (end: nat)
    requires offset < |text|
    ensures offset <= end <= |text| && end - offset <= MaxLength
    ensures offset + MaxLength > |text| ==> end == |text|
    ensures offset + MaxLength <= |text| ==>
      && (end == offset || SpaceAt(text, end))
      && (forall k :: end < k <= offset + MaxLength ==> !SpaceAt(text, k))
  {
    if offset + MaxLength > |text| then |text| else BackUp(text, offset, offset + MaxLength)
  }

  /** The spans tile `[lo, hi)`: each is non-empty, the first starts at `lo`,
      each starts where the previous one ended and the last ends at `hi`. */
  predicate Tiles(spans: seq<Span>, lo: nat, hi: nat)
    decreases |spans|
  {
    if spans == [] then lo == hi
    else spans[0].lo == lo && lo < spans[0].hi && Tiles(spans[1..], spans[0].hi, hi)
  }

  /** The outer loop from `offset` to its end, or to the offset where it
      stops making progress. */
  function PlanFrom(text: string, offset: nat): (p: Plan)
    requires offset <= |text|
    ensures p.Cuts? ==> Tiles(p.spans, offset, |text|)
    ensures p.Cuts? ==> forall i :: 0 <= i < |p.spans| ==>
      && offset <= p.spans[i].lo < p.spans[i].hi <= |text|
      && p.spans[i].hi == CutAt(text, p.spans[i].lo)
    ensures p.Stalls? ==> offset <= p.at < |text| && CutAt(text, p.at) == p.at
    decreases |text| - offset
  {
    if offset == |text| then Cuts([])
    else
      var end := CutAt(text, offset);
      if end == offset then Stalls(offset)
      else match PlanFrom(text, end)
        case Cuts(rest) => Cuts([Span(offset, end)] + rest)
        case Stalls(at) => Stalls(at)
  }

  /** The source loop terminates on `text`. */
  predicate Terminates(text: string)
  {
    PlanFrom(text, 0).Cuts?
  }

  predicate InText(text: string, spans: seq<Span>)
  {
    forall i :: 0 <= i < |spans| ==> spans[i].lo <= spans[i].hi <= |text|
  }

  /** The messages sent for the given spans: each carries its span trimmed,
      and only the first is a reply. */
  function Outbox(text: string, spans: seq<Span>): seq<Send>
    requires InText(text, spans)
  {
    seq(|spans|, i requires 0 <= i < |spans| => Send(i == 0, Trim(text[spans[i].lo..spans[i].hi])))
  }

  /** What `sendTextInChunks(text, message)` sends, when it terminates. */
  function Chunks(text: string): (sent: seq<Send>)
    requires Terminates(text)
    ensures |sent| == |PlanFrom(text, 0).spans|
    ensures forall i :: 0 <= i < |sent| ==> |sent[i].content| <= MaxLength
    ensures forall i :: 0 <= i < |sent| ==> (sent[i].isReply <==> i == 0)
    ensures sent == [] <==> text == []
  {
    var spans := PlanFrom(text, 0).spans;
    var sent := Outbox(text, spans);
    assert forall i :: 0 <= i < |sent| ==> |sent[i].content| <= spans[i].hi - spans[i].lo <= MaxLength;
    sent
  }

  /** `sendTextInChunks`: the source's outer and inner loops, sending into the
      returned log. */
  method SendTextInChunks(text: string) returns (sent: seq<Send>)
    requires Terminates(text)
    ensures sent == Chunks(text)
  {
    var offset: nat := 0;
    var partCount := 0;
    sent := [];
    ghost var done: seq<Span> := [];
    while offset < |text|
      invariant offset <= |text|
      invariant PlanFrom(text, offset).Cuts?
      invariant done + PlanFrom(text, offset).spans == PlanFrom(text, 0).spans
      invariant InText(text, done)
      invariant partCount == |done|
      invariant sent == Outbox(text, done)
      decreases |text| - offset
    {
      var end := CutPoint(text, offset);
      var part := Trim(text[offset..end]);
      ChunkStep(text, offset, done, sent);
      done := done + [Span(offset, end)];
      offset := end;
      sent := sent + [Send(partCount == 0, part)];
      partCount := partCount + 1;
    }
    assert done == PlanFrom(text, 0).spans;
  }

  /** Lines 278-286: where the iteration starting at `offset` cuts. */
  method CutPoint(text: string, offset: nat) returns (end: nat)
    requires offset < |text|
    ensures end == CutAt(text, offset)
  {
    end := offset + MaxLength;
    if end > |text| {
      end := |text|;
    } else {
      // split at a word boundary
      while end > offset && !(end < |text| && IsSpace(text[end]))
        invariant offset <= end <= offset + MaxLength
        invariant BackUp(text, offset, end) == BackUp(text, offset, offset + MaxLength)
      {
        end := end - 1;
      }
    }
  }

  /** One turn of the outer loop keeps its invariant: it moves one span
      from the plan's remainder to the spans done, and sends that span's
      piece. */
  lemma ChunkStep(text: string, offset: nat, done: seq<Span>, sent: seq<Send>)
    requires offset < |text| && PlanFrom(text, offset).Cuts? && Terminates(text)
    requires done + PlanFrom(text, offset).spans == PlanFrom(text, 0).spans
    requires InText(text, done) && sent == Outbox(text, done)
    ensures var end := CutAt(text, offset);
      var done' := done + [Span(offset, end)];
      && offset < end <= |text|
      && PlanFrom(text, end).Cuts?
      && done' + PlanFrom(text, end).spans == PlanFrom(text, 0).spans
      && InText(text, done')
      && Outbox(text, done') == sent + [Send(|done| == 0, Trim(text[offset..end]))]
  {
    var end := CutAt(text, offset);
    PlanAdvance(text, offset, done);
    OutboxSnoc(text, done, Span(offset, end));
  }

  lemma PlanAdvance(text: string, offset: nat, done: seq<Span>)
    requires offset < |text| && PlanFrom(text, offset).Cuts? && Terminates(text)
    requires done + PlanFrom(text, offset).spans == PlanFrom(text, 0).spans
    ensures var end := CutAt(text, offset);
      && offset < end
      && PlanFrom(text, end).Cuts?
      && (done + [Span(offset, end)]) + PlanFrom(text, end).spans == PlanFrom(text, 0).spans
  {
    var end := CutAt(text, offset);
    PlanStep(text, offset);
    assert (done + [Span(offset, end)]) + PlanFrom(text, end).spans == done + PlanFrom(text, offset).spans;
  }

  /** One turn of the outer loop, as the plan sees it. */
  lemma PlanStep(text: string, offset: nat)
    requires offset < |text| && PlanFrom(text, offset).Cuts?
    ensures offset < CutAt(text, offset)
    ensures PlanFrom(text, CutAt(text, offset)).Cuts?
    ensures PlanFrom(text, offset).spans == [Span(offset, CutAt(text, offset))] + PlanFrom(text, CutAt(text, offset)).spans
  {
  }

  lemma OutboxSnoc(text: string, spans: seq<Span>, s: Span)
    requires InText(text, spans) && s.lo <= s.hi <= |text|
    ensures InText(text, spans + [s])
    ensures Outbox(text, spans + [s]) == Outbox(text, spans) + [Send(|spans| == 0, Trim(text[s.lo..s.hi]))]
  {
    var a, b := Outbox(text, spans + [s]), Outbox(text, spans) + [Send(|spans| == 0, Trim(text[s.lo..s.hi]))];
    assert forall i :: 0 <= i < |a| ==> a[i] == b[i];
  }

  /** Lines 192-200 of the message handler: a text longer than `MaxLength`
      goes through the chunker, any other goes out whole as one reply. */
  method SendResponse(text: string) returns (sent: seq<Send>)
    requires |text| <= MaxLength || Terminates(text)
    ensures |text| <= MaxLength ==> sent == [Send(true, text)]
    ensures |text| > MaxLength ==> sent == Chunks(text) && |sent| >= 2
    ensures |sent| >= 1 && sent[0].isReply
    ensures forall i :: 1 <= i < |sent| ==> !sent[i].isReply
    ensures forall i :: 0 <= i < |sent| ==> |sent[i].content| <= MaxLength
  {
    if |text| > MaxLength {
      sent := SendTextInChunks(text);
      LongTextSplits(text);
    } else {
      sent := [Send(true, text)];
    }
  }

  /** A text longer than one message is always sent as at least two. */
  lemma LongTextSplits(text: string)
    requires Terminates(text) && |text| > MaxLength
    ensures |PlanFrom(text, 0).spans| >= 2
  {
    var spans := PlanFrom(text, 0).spans;
    assert spans[0].hi == CutAt(text, 0) <= MaxLength < |text|;
  }

  /** The untrimmed slices of a tiling put back together. */
  function Joined(text: string, spans: seq<Span>): string
    requires InText(text, spans)
  {
    if spans == [] then [] else text[spans[0].lo..spans[0].hi] + Joined(text, spans[1..])
  }

  lemma {:induction false} JoinedTiles(text: string, spans: seq<Span>, lo: nat, hi: nat)
    requires Tiles(spans, lo, hi) && InText(text, spans) && hi <= |text|
    ensures lo <= hi && Joined(text, spans) == text[lo..hi]
    decreases |spans|
  {
    if spans != [] {
      JoinedTiles(text, spans[1..], spans[0].hi, hi);
      assert text[lo..spans[0].hi] + text[spans[0].hi..hi] == text[lo..hi];
    }
  }

  /** Coverage: the untrimmed slices the loop cuts are contiguous, start at 0,
      end at `|text|` and put back together give exactly `text`; each piece
      sent is its slice trimmed, and every slice but the last is followed by
      whitespace in `text` (a cut happens just before a whitespace character
      and at the last such character within reach). */
  lemma ChunksCoverText(text: string)
    requires Terminates(text)
    ensures var spans := PlanFrom(text, 0).spans;
      && Tiles(spans, 0, |text|)
      && Joined(text, spans) == text
      && (forall i :: 0 <= i < |spans| ==> Chunks(text)[i].content == Trim(text[spans[i].lo..spans[i].hi]))
      && (forall i :: 0 <= i < |spans| - 1 ==>
            && SpaceAt(text, spans[i].hi)
            && (forall k :: spans[i].hi < k <= spans[i].lo + MaxLength ==> !SpaceAt(text, k)))
  {
    var spans := PlanFrom(text, 0).spans;
    JoinedTiles(text, spans, 0, |text|);
    forall i | 0 <= i < |spans| - 1
      ensures SpaceAt(text, spans[i].hi)
    {
      TilesStep(spans, 0, |text|, i);
    }
  }

  /** In a tiling, each span but the last ends where the next one starts,
      strictly before `hi`. */
  lemma {:induction false} TilesStep(spans: seq<Span>, lo: nat, hi: nat, i: nat)
    requires Tiles(spans, lo, hi) && i + 1 < |spans|
    ensures spans[i].hi == spans[i + 1].lo < hi
    decreases |spans|
  {
    TilesBelow(spans[1..], spans[0].hi, hi);
    if i > 0 {
      TilesStep(spans[1..], spans[0].hi, hi, i - 1);
    }
  }

  lemma {:induction false} TilesBelow(spans: seq<Span>, lo: nat, hi: nat)
    requires Tiles(spans, lo, hi)
    ensures spans != [] ==> lo < hi
    ensures forall i :: 0 <= i < |spans| ==> spans[i].lo < hi
    decreases |spans|
  {
    if spans != [] {
      TilesBelow(spans[1..], spans[0].hi, hi);
      assert forall i :: 1 <= i < |spans| ==> spans[i] == spans[1..][i - 1];
    }
  }

  // ---- Termination -------------------------------------------------------

  /** The outer loop's offset after `n` iterations (it stays put once the
      loop condition `offset < text.length` fails). */
  function OffsetAfter(text: string, offset: nat, n: nat): (r: nat)
    requires offset <= |text|
    ensures offset <= r <= |text|
    decreases n
  {
    if n == 0 || offset == |text| then offset else OffsetAfter(text, CutAt(text, offset), n - 1)
  }

  /** A stall is a window `(at, at + MaxLength]` that lies inside the text and
      holds no whitespace; there the cut falls back to `at` itself and the
      piece sent is empty. */
  lemma StallIsWindowWithoutSpace(text: string, offset: nat)
    requires offset <= |text| && PlanFrom(text, offset).Stalls?
    ensures var at := PlanFrom(text, offset).at;
      && at + MaxLength <= |text|
      && (forall k :: at < k <= at + MaxLength ==> !SpaceAt(text, k))
      && Trim(text[at..CutAt(text, at)]) == []
  {
  }

  /** The converse: once the loop reaches an offset whose window
      `(at, at + MaxLength]` lies inside the text and holds no whitespace,
      the plan stalls, so from the start the loop never ends. */
  lemma {:induction false} WindowWithoutSpaceStalls(text: string, offset: nat, n: nat)
    requires offset <= |text|
    requires var at := OffsetAfter(text, offset, n);
      && at + MaxLength <= |text|
      && forall k :: at < k <= at + MaxLength ==> !SpaceAt(text, k)
    ensures PlanFrom(text, offset).Stalls?
    ensures offset == 0 ==> !Terminates(text)
    decreases n
  {
    if n > 0 && offset < |text| && CutAt(text, offset) != offset {
      WindowWithoutSpaceStalls(text, CutAt(text, offset), n - 1);
    }
  }

  /** A word shorter than the limit, a space and then a run of at least
      `MaxLength` characters without whitespace: the first piece is the
      word, and the loop then stalls at the start of the run. */
  lemma WordThenRunStalls(word: string, run: string)
    requires 0 < |word| < MaxLength && forall k :: 0 <= k < |word| ==> !IsSpace(word[k])
    requires |run| >= MaxLength && forall k :: 0 <= k < |run| ==> !IsSpace(run[k])
    ensures var text := word + " " + run;
      && CutAt(text, 0) == |word|
      && PlanFrom(text, |word|) == Stalls(|word|)
      && !Terminates(text)
  {
    var text := word + " " + run;
    var w := |word|;
    assert SpaceAt(text, w);
    assert forall k :: 0 <= k < w ==> text[k] == word[k];
    assert forall k :: w < k < |text| ==> text[k] == run[k - w - 1];
    var end := CutAt(text, 0);
    assert end == w;
    assert forall k :: w < k <= w + MaxLength ==> !SpaceAt(text, k);
    WindowWithoutSpaceStalls(text, 0, 1);
  }

  /** The loop ends within some number of iterations exactly when the plan
      does not stall; on a stall the offset never reaches the end. */
  lemma {:induction false} LoopEndsIffTerminates(text: string)
    ensures Terminates(text) <==> exists n: nat :: OffsetAfter(text, 0, n) == |text|
    ensures !Terminates(text) ==> forall n: nat :: OffsetAfter(text, 0, n) < |text|
  {
    if Terminates(text) {
      ReachesEnd(text, 0);
    } else {
      forall n: nat ensures OffsetAfter(text, 0, n) < |text| {
        StaysStalled(text, 0, n);
      }
    }
  }

  lemma {:induction false} ReachesEnd(text: string, offset: nat)
    requires offset <= |text| && PlanFrom(text, offset).Cuts?
    ensures OffsetAfter(text, offset, |PlanFrom(text, offset).spans|) == |text|
    decreases |text| - offset
  {
    if offset < |text| {
      PlanStep(text, offset);
      ReachesEnd(text, CutAt(text, offset));
    }
  }

  lemma {:induction false} StaysStalled(text: string, offset: nat, n: nat)
    requires offset <= |text| && PlanFrom(text, offset).Stalls?
    ensures OffsetAfter(text, offset, n) < |text|
    ensures PlanFrom(text, OffsetAfter(text, offset, n)).Stalls?
    decreases n
  {
    if n > 0 {
      var end := CutAt(text, offset);
      assert end == offset || PlanFrom(text, end) == PlanFrom(text, offset);
      StaysStalled(text, end, n - 1);
    }
  }

  /** A run of at least `MaxLength` characters without whitespace at the start
      of the text stalls the loop at offset 0; with `|text| == MaxLength` the text
      would even fit in one message. */
  lemma UnbrokenRunStalls(text: string)
    requires |text| >= MaxLength
    requires forall k :: 0 <= k < |text| ==> !IsSpace(text[k])
    ensures PlanFrom(text, 0) == Stalls(0)
    ensures !Terminates(text)
  {
    assert forall k :: 0 < k <= MaxLength ==> !SpaceAt(text, k);
  }

  // ---- Corrected chunker: a hard cut when the window has no whitespace ----

  /** Where the loop would cut if, as intended, a window without whitespace
      were cut at its far end instead of at `offset`. */
  function HardCutAt(text: string, offset: nat): (end: nat)
    requires offset < |text|
    ensures offset < end <= |text| && end - offset <= MaxLength
    ensures CutAt(text, offset) != offset ==> end == CutAt(text, offset)
  {
    var end := CutAt(text, offset);
    if end == offset then offset + MaxLength else end
  }

  /** The spans the corrected loop cuts from `offset`: always finitely many. */
  function HardCutSpans(text: string, offset: nat): (spans: seq<Span>)
    requires offset <= |text|
    ensures Tiles(spans, offset, |text|) && InText(text, spans)
    ensures forall i :: 0 <= i < |spans| ==> spans[i].hi - spans[i].lo <= MaxLength
    decreases |text| - offset
  {
    if offset == |text| then []
    else
      var end := HardCutAt(text, offset);
      [Span(offset, end)] + HardCutSpans(text, end)
  }

  /** The corrected chunker sends every piece within the limit, and its
      slices put back together give the whole text, for every text. */
  lemma HardCutCoversText(text: string)
    ensures var spans := HardCutSpans(text, 0);
      && Joined(text, spans) == text
      && (forall i :: 0 <= i < |spans| ==> |Trim(text[spans[i].lo..spans[i].hi])| <= MaxLength)
  {
    JoinedTiles(text, HardCutSpans(text, 0), 0, |text|);
  }

  /** Wherever the source loop terminates, the corrected one cuts exactly the
      same spans. */
  lemma {:induction false} HardCutAgrees(text: string, offset: nat)
    requires offset <= |text| && PlanFrom(text, offset).Cuts?
    ensures HardCutSpans(text, offset) == PlanFrom(text, offset).spans
    decreases |text| - offset
  {
    if offset < |text| {
      PlanStep(text, offset);
      HardCutAgrees(text, CutAt(text, offset));
    }
  }
}
