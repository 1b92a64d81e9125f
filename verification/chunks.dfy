/** The chunk pipeline of `transcribeFileInChunks` in `audio2json.go`: cutting a long file into
    15-second windows, the per-chunk worker that records a text or an error in the chunk's slot,
    and the partial-success reassembly of the slots in index order. The worker pool is modelled by
    filling the slots in an arbitrary completion order. */
module Chunks {
  import opened Wrappers
  import opened Text
  import opened Types

  /** Seconds of audio per chunk. */
  const ChunkDuration: real := 15.0

  // ---------------------------------------------------------------------------------------------
  // Chunk count and windows
  // ---------------------------------------------------------------------------------------------

  /** `int(duration / chunkDuration)`, plus one when a remainder is left over: the ceiling of
      d / 15, i.e. the fewest 15-second windows that cover the duration. */
  function ChunkCount(d: real): (n: nat)
    requires d >= 0.0
    ensures d <= n as real * ChunkDuration
    ensures n > 0 ==> (n - 1) as real * ChunkDuration < d
    ensures n == 0 <==> d == 0.0
    ensures d > ChunkDuration ==> n >= 2
  {
    var q := (d / ChunkDuration).Floor;
    if d > q as real * ChunkDuration then q + 1 else q
  }

  /** A time window of the input, in seconds. */
  datatype Window = Window(start: real, length: real)

  /** The window chunk `i` covers: it starts at i * 15 and runs 15 seconds, cut short at the end
      of the file. Every window is non-empty, at most 15 seconds, inside the file; all but the
      last are exactly 15 seconds and the last one ends at the end of the file. */
  function ChunkWindow(d: real, i: nat): (w: Window)
    requires d >= 0.0 && i < ChunkCount(d)
    ensures w.start == i as real * ChunkDuration
    ensures 0.0 < w.length <= ChunkDuration
    ensures w.start + w.length <= d
    ensures i + 1 < ChunkCount(d) ==> w.length == ChunkDuration
    ensures i + 1 == ChunkCount(d) ==> w.length == d - (ChunkCount(d) - 1) as real * ChunkDuration
  {
    var start := i as real * ChunkDuration;
    var length := if start + ChunkDuration > d then d - start else ChunkDuration;
    Window(start, length)
  }

  /** Total length of the first `k` windows. */
  function TotalLength(d: real, k: nat): real
    requires d >= 0.0 && k <= ChunkCount(d)
  {
    if k == 0 then 0.0 else TotalLength(d, k - 1) + ChunkWindow(d, k - 1).length
  }

  /** Before the last window, the windows are back to back from 0 in steps of 15 seconds. */
  lemma {:induction false} FullWindowsLength(d: real, k: nat)
    requires d >= 0.0 && k < ChunkCount(d)
    ensures TotalLength(d, k) == k as real * ChunkDuration
  {
    if k > 0 {
      FullWindowsLength(d, k - 1);
    }
  }

  /** The window lengths add up to exactly the duration. */
  lemma WindowLengthsSumToDuration(d: real)
    requires d >= 0.0
    ensures TotalLength(d, ChunkCount(d)) == d
  {
    var n := ChunkCount(d);
    if n > 0 {
      FullWindowsLength(d, n - 1);
    }
  }

  /** Every instant of the file lies in the window of index floor(t / 15), and windows do not
      overlap: a later window starts no earlier than an earlier one ends. */
  lemma WindowsPartitionTheFile(d: real, t: real)
    requires 0.0 <= t < d
    ensures var i := (t / ChunkDuration).Floor;
            0 <= i < ChunkCount(d)
            && ChunkWindow(d, i).start <= t < ChunkWindow(d, i).start + ChunkWindow(d, i).length
    ensures forall i, j :: 0 <= i < j < ChunkCount(d) ==>
              ChunkWindow(d, i).start + ChunkWindow(d, i).length <= ChunkWindow(d, j).start
  {
    var i := (t / ChunkDuration).Floor;
    assert i as real * ChunkDuration <= t < (i + 1) as real * ChunkDuration;
    var n := ChunkCount(d);
    assert (n - 1) as real * ChunkDuration < d;
  }

  // ---------------------------------------------------------------------------------------------
  // One chunk worker
  // ---------------------------------------------------------------------------------------------

  /** What happened to one chunk: ffmpeg could not cut it, or it was cut and then transcribed
      with the given reply. Chunk `i` is the window `ChunkWindow(d, i)` of the file (the `-ss`
      start and `-t` length passed to ffmpeg, audio2json.go:192-203). The chunk file is removed
      after a transcription attempt only. */
  datatype ChunkRun = ExtractFailed(cause: string) | Extracted(transcription: Reply)

  /** The chunk was cut and transcribed into a text without error. */
  predicate ChunkSucceeds(run: ChunkRun) {
    run.Extracted? && run.transcription.err.None? && run.transcription.text.Some?
  }

  /** The slot a chunk worker writes: the transcription's text when the chunk succeeds, and
      otherwise an error that names the failing step (extraction, transcription, or nil text).
      Either way the slot holds a text exactly when it holds no error. */
  function ChunkWorker(run: ChunkRun): (slot: Reply)
    ensures WellFormed(slot)
    ensures slot.text.Some? <==> ChunkSucceeds(run)
    ensures slot.text.Some? ==> slot.text == run.transcription.text
    ensures run.ExtractFailed? ==> slot.err == Some(ChunkExtraction(run.cause))
    ensures run.Extracted? && run.transcription.err.Some?
            ==> slot.err == Some(ChunkTranscription(run.transcription.err.value))
    ensures run.Extracted? && run.transcription.err.None? && run.transcription.text.None?
            ==> slot.err == Some(ChunkNilText)
  {
    match run
    case ExtractFailed(cause) => Reply(None, Some(ChunkExtraction(cause)))
    case Extracted(reply) =>
      if reply.err.Some? then Reply(None, Some(ChunkTranscription(reply.err.value)))
      else if reply.text.None? then Reply(None, Some(ChunkNilText))
      else Reply(reply.text, None)
  }

  /** A slot nobody has written yet: Go's zero values, nil text and nil error. */
  const EmptySlot: Reply := Reply(None, None)

  /** The slots after every chunk worker has run: slot `i` holds chunk `i`'s outcome. */
  function ChunkSlots(n: nat, runs: nat -> ChunkRun): (slots: seq<Reply>)
    ensures |slots| == n
    ensures forall i :: 0 <= i < n ==> slots[i] == ChunkWorker(runs(i))
  {
    seq(n, i requires 0 <= i < n => ChunkWorker(runs(i)))
  }

  /** Workers finishing chunks in the order `order`, each writing only its own slot. A slot is
      the chunk's outcome once its index has been processed, and untouched before. */
  function FillSlots(slots: seq<Reply>, order: seq<nat>, runs: nat -> ChunkRun): (r: seq<Reply>)
    requires forall k :: 0 <= k < |order| ==> order[k] < |slots|
    ensures |r| == |slots|
    ensures forall i :: 0 <= i < |slots| ==> r[i] == if i in order then ChunkWorker(runs(i)) else slots[i]
    decreases |order|
  {
    if |order| == 0 then slots
    else
      var i := order[0];
      assert forall j :: j in order <==> j == i || j in order[1..];
      FillSlots(slots[i := ChunkWorker(runs(i))], order[1..], runs)
  }

  /** Completion order does not matter: whatever order the pool finishes the chunks in, the
      slot array ends up the same. */
  lemma CompletionOrderIrrelevant(n: nat, runs: nat -> ChunkRun, order: seq<nat>)
    requires IsPermutation(order, n)
    ensures FillSlots(seq(n, _ => EmptySlot), order, runs) == ChunkSlots(n, runs)
  {
    PermutationMembers(order, n);
  }

  // ---------------------------------------------------------------------------------------------
  // Reassembly
  // ---------------------------------------------------------------------------------------------

  /** The texts of the slots that hold one, in slot order. */
  function SuccessTexts(slots: seq<Reply>): seq<string>
  {
    if |slots| == 0 then []
    else (if slots[0].text.Some? then [slots[0].text.value] else []) + SuccessTexts(slots[1..])
  }

  /** Each text followed by one space, as the string builder accumulates them. */
  function Spaced(texts: seq<string>): string
  {
    if |texts| == 0 then "" else texts[0] + " " + Spaced(texts[1..])
  }

  /** Every slot of `slots` holds an error. */
  predicate AllFailed(slots: seq<Reply>) {
    forall i :: 0 <= i < |slots| ==> slots[i].err.Some?
  }

  /** The end of the chunk pipeline: the "all chunks failed" error when every slot holds an
      error, otherwise the trimmed concatenation of the texts, each followed by one space. */
  function Combine(slots: seq<Reply>): (r: Reply)
    ensures r.text.Some? <==> r.err.None?
    ensures r.err.Some? ==> r.err == Some(AllChunksFailed)
    ensures r.err.Some? <==> AllFailed(slots)
  {
    if AllFailed(slots) then Reply(None, Some(AllChunksFailed))
    else Reply(Some(TrimSpace(Spaced(SuccessTexts(slots)))), None)
  }

  /** Go's `transcribeFileInChunks` for a file of duration `d`, where `runs(i)` is what happened
      to chunk `i` (cut at `ChunkWindow(d, i)`). It fails only when every chunk failed; one
      success is enough, and the text is the successful chunk texts in chunk order, joined by
      single spaces and trimmed. */
  function TranscribeInChunks(d: real, runs: nat -> ChunkRun): (r: Reply)
    requires d >= 0.0
    ensures WellFormed(r)
    ensures r.err.Some? <==> forall i :: 0 <= i < ChunkCount(d) ==> !ChunkSucceeds(runs(i))
    ensures r.err.Some? ==> r.err == Some(AllChunksFailed)
    ensures r.text.Some? ==> r.text.value == TrimSpace(Join(SuccessTexts(ChunkSlots(ChunkCount(d), runs)), ' '))
  {
    var slots := ChunkSlots(ChunkCount(d), runs);
    if Combine(slots).text.Some? then
      CombinedIsTrimmedJoin(slots);
      Combine(slots)
    else
      Combine(slots)
  }

  /** Spacing the texts is joining them with single spaces plus one trailing space. */
  lemma {:induction false} SpacedIsJoinPlusSpace(texts: seq<string>)
    requires |texts| >= 1
    ensures Spaced(texts) == Join(texts, ' ') + " "
  {
    if |texts| > 1 {
      SpacedIsJoinPlusSpace(texts[1..]);
    }
  }

  /** The combined text is the successful chunks' texts, in chunk order, joined with single
      spaces and then trimmed. */
  lemma CombinedIsTrimmedJoin(slots: seq<Reply>)
    requires Combine(slots).text.Some?
    ensures Combine(slots).text.value == TrimSpace(Join(SuccessTexts(slots), ' '))
  {
    var texts := SuccessTexts(slots);
    assert Combine(slots).text.value == TrimSpace(Spaced(texts));
    if |texts| > 0 {
      SpacedIsJoinPlusSpace(texts);
      TrimSpaceIgnoresTrailingSpace(Join(texts, ' '), ' ');
    }
  }

  /** When the successful texts are non-empty and carry no surrounding white space, the
      combined text is exactly those texts joined with single spaces. */
  lemma CleanTextsJoinWithSingleSpaces(slots: seq<Reply>)
    requires Combine(slots).text.Some?
    requires forall k :: 0 <= k < |SuccessTexts(slots)| ==>
               SuccessTexts(slots)[k] != "" && Trimmed(SuccessTexts(slots)[k])
    ensures Combine(slots).text.value == Join(SuccessTexts(slots), ' ')
  {
    var texts := SuccessTexts(slots);
    CombinedIsTrimmedJoin(slots);
    if |texts| > 0 {
      JoinFirst(texts, ' ');
      JoinLast(texts, ' ');
    }
    TrimSpaceOfTrimmed(Join(texts, ' '));
  }

  /** Slot texts of a concatenation are the concatenated slot texts. */
  lemma {:induction false} SuccessTextsAppend(a: seq<Reply>, b: seq<Reply>)
    ensures SuccessTexts(a + b) == SuccessTexts(a) + SuccessTexts(b)
  {
    if |a| == 0 {
      assert a + b == b;
    } else {
      var head := if a[0].text.Some? then [a[0].text.value] else [];
      assert (a + b)[0] == a[0];
      assert (a + b)[1..] == a[1..] + b;
      assert SuccessTexts(a + b) == head + SuccessTexts(a[1..] + b);
      SuccessTextsAppend(a[1..], b);
      assert SuccessTexts(a) == head + SuccessTexts(a[1..]);
    }
  }

  /** Dropping a failed slot removes no text. */
  lemma DropFailedSlotTexts(slots: seq<Reply>, i: nat)
    requires i < |slots| && slots[i].text.None?
    ensures SuccessTexts(slots[..i] + slots[i + 1..]) == SuccessTexts(slots)
  {
    var pre, post := slots[..i], slots[i + 1..];
    assert slots == pre + ([slots[i]] + post);
    assert SuccessTexts([slots[i]] + post) == SuccessTexts(post) by {
      assert ([slots[i]] + post)[1..] == post;
    }
    SuccessTextsAppend(pre, [slots[i]] + post);
    SuccessTextsAppend(pre, post);
  }

  /** Dropping a failed slot does not change whether every slot failed. */
  lemma DropFailedSlotAllFailed(slots: seq<Reply>, i: nat)
    requires i < |slots| && slots[i].err.Some?
    ensures AllFailed(slots[..i] + slots[i + 1..]) == AllFailed(slots)
  {
    var rest := slots[..i] + slots[i + 1..];
    assert forall j :: 0 <= j < i ==> rest[j] == slots[j];
    assert forall j :: i < j < |slots| ==> rest[j - 1] == slots[j];
  }

  /** Dropping a failed slot neither adds nor removes a success. */
  lemma DropFailedSlot(slots: seq<Reply>, i: nat)
    requires i < |slots| && slots[i].text.None? && slots[i].err.Some?
    ensures SuccessTexts(slots[..i] + slots[i + 1..]) == SuccessTexts(slots)
    ensures AllFailed(slots[..i] + slots[i + 1..]) == AllFailed(slots)
  {
    DropFailedSlotTexts(slots, i);
    DropFailedSlotAllFailed(slots, i);
  }

  /** A failed chunk contributes nothing, not even a separator: the result is the same as if
      that chunk did not exist. */
  lemma FailedChunkContributesNothing(slots: seq<Reply>, i: nat)
    requires i < |slots| && slots[i].text.None? && slots[i].err.Some?
    ensures Combine(slots) == Combine(slots[..i] + slots[i + 1..])
  {
    DropFailedSlot(slots, i);
  }

  /** A 20-second file is cut into two chunks, [0, 15) and [15, 20). */
  lemma TwentySecondsTwoChunks()
    ensures ChunkCount(20.0) == 2
    ensures ChunkWindow(20.0, 0) == Window(0.0, 15.0)
    ensures ChunkWindow(20.0, 1) == Window(15.0, 5.0)
  {
    assert (20.0 / ChunkDuration).Floor == 1;
  }

  /** The texts "hello " and "world" spaced out are "hello  world ". */
  lemma HelloWorldSpaced()
    ensures Spaced(["hello ", "world"]) == "hello  world" + " "
  {
    assert ["hello ", "world"][1..] == ["world"];
    assert ["world"][1..] == [];
    assert Spaced(["world"]) == "world" + " " + "";
  }

  /** Combining the slots "hello " and "world" gives "hello  world", with two spaces: the first
      text's own trailing space is kept and the separator is added after it. */
  lemma CombineHelloWorld()
    ensures Combine([Reply(Some("hello "), None), Reply(Some("world"), None)]) == Reply(Some("hello  world"), None)
  {
    var slots := [Reply(Some("hello "), None), Reply(Some("world"), None)];
    assert slots[1..][1..] == [];
    assert SuccessTexts(slots) == ["hello ", "world"];
    assert !AllFailed(slots) by {
      assert slots[0].err.None?;
    }
    HelloWorldSpaced();
    TrimHelloWorld();
  }

  /** Trimming "hello  world " drops only the final space. */
  lemma TrimHelloWorld()
    ensures TrimSpace("hello  world" + " ") == "hello  world"
  {
    var s := "hello  world";
    assert s[0] == 'h' && s[|s| - 1] == 'd';
    assert Trimmed(s);
    TrimSpaceIgnoresTrailingSpace(s, ' ');
    TrimSpaceOfTrimmed(s);
  }

  /** A 20-second file whose two chunks are transcribed as "hello " and "world" comes out as
      "hello  world". */
  lemma HelloWorld(runs: nat -> ChunkRun)
    requires runs(0) == Extracted(Reply(Some("hello "), None))
    requires runs(1) == Extracted(Reply(Some("world"), None))
    ensures TranscribeInChunks(20.0, runs) == Reply(Some("hello  world"), None)
  {
    TwentySecondsTwoChunks();
    assert ChunkSlots(2, runs) == [Reply(Some("hello "), None), Reply(Some("world"), None)];
    CombineHelloWorld();
  }
}
