/**
 Writing the AI's answer into Slack (`write_answer`) and streaming it there
 chunk by chunk (`consume_custom_stream_to_write_reply`).

 Slack is a log of the calls made to `update_wip_message`; the update threads
 are records of what each one will render, run when they are joined; the
 clock is an input giving the whole seconds elapsed when each chunk arrives.

 `render` is the rendering every push uses: `format_assistant_reply` with
 the call's `translate_markdown` flag, that is
 `s => AssistantReply.FormatReply(s, translateMarkdown, markdownToSlack)`.
 What is proved here holds for any rendering function.
 */
module ReplyStream {
  import opened PyText

  /** Appended to every intermediate rendering while the answer is being written. */
  const LoadingCharacter: string := " ... :writing_hand:"

  /** The number of words after which an intermediate update is dispatched. */
  const FlushThreshold: nat := 10

  datatype Role = System | User | Assistant

  /** One entry of `messages`: `{"role": ..., "content": ...}`. */
  datatype Turn = Turn(role: Role, content: string)

  /** One call to `update_wip_message`: the text stored in
      `wip_reply["message"]["text"]` just before, and the text sent to Slack. */
  datatype Push = Push(stored: string, sent: string)

  /** A rendering while the answer is still being written. */
  function IntermediatePush(text: string): (p: Push)
    ensures p.sent == p.stored + LoadingCharacter
  {
    Push(text, text + LoadingCharacter)
  }

  /** The finished rendering, without the loading marker. */
  function FinalPush(text: string): (p: Push)
    ensures p.sent == p.stored
  {
    Push(text, text)
  }

  /** A dispatched update thread: the content it renders, and whether it is
      still alive (has not been joined). */
  datatype UpdateThread = UpdateThread(snapshot: string, alive: bool)

  /** How a streaming call ends: normally, by raising `TimeoutError`, or by
      letting the exception the stream raised propagate. */
  datatype Outcome = Completed | TimedOut | StreamFailed

  /** The state the caller shares with the writer: the conversation `messages`,
      the work-in-progress reply `wip_reply` and the Slack message it stands for. */
  class Chat {
    var messages: seq<Turn>
    var wipText: string
    var pushes: seq<Push>

    /** `wip_reply["message"]["text"]` holds what the latest push stored. */
    ghost predicate Valid()
      reads this`pushes, this`wipText
    {
      pushes != [] ==> wipText == pushes[|pushes| - 1].stored
    }

    constructor (messages: seq<Turn>, wipText: string)
      ensures Valid()
      ensures this.messages == messages && this.wipText == wipText && pushes == []
    {
      this.messages := messages;
      this.wipText := wipText;
      pushes := [];
    }

    /** Storing a rendering in `wip_reply["message"]["text"]` and sending
        `sent` for it through `update_wip_message`. */
    method Show(text: string, sent: string)
      modifies this`wipText, this`pushes
      ensures Valid()
      ensures wipText == text
      ensures pushes == old(pushes) + [Push(text, sent)]
    {
      wipText := text;
      pushes := pushes + [Push(text, sent)];
    }
  }

  /** What pulling the next item of the stream gives. */
  datatype Pull = Fragment(text: string) | Exhausted | Raised

  /** The generator the answer arrives from: the chunks it yields, in order,
      and whether the pull after the last one raises instead of ending. */
  class FragmentStream {
    const fragments: seq<string>
    const raises: bool
    var pulled: nat
    var closeCalls: nat

    ghost predicate Valid()
      reads this
    {
      pulled <= |fragments|
    }

    constructor (fragments: seq<string>, raises: bool)
      ensures Valid()
      ensures this.fragments == fragments && this.raises == raises
      ensures pulled == 0 && closeCalls == 0
    {
      this.fragments := fragments;
      this.raises := raises;
      pulled := 0;
      closeCalls := 0;
    }

    /** One step of `for chunk in stream`. */
    method Next() returns (p: Pull)
      requires Valid()
      modifies this`pulled
      ensures Valid()
      ensures old(pulled) < |fragments| ==> p == Fragment(fragments[old(pulled)]) && pulled == old(pulled) + 1
      ensures old(pulled) == |fragments| ==> p == (if raises then Raised else Exhausted) && pulled == old(pulled)
    {
      if pulled < |fragments| {
        p := Fragment(fragments[pulled]);
        pulled := pulled + 1;
      } else if raises {
        p := Raised;
      } else {
        p := Exhausted;
      }
    }

    /** `stream.close()`. */
    method Close()
      modifies this`closeCalls
      ensures closeCalls == old(closeCalls) + 1
    {
      closeCalls := closeCalls + 1;
    }
  }

  // ------------------------------------------------ the throttle, as values

  /** `len(chunk.split())`: the number of places in the chunk where a word begins. */
  function WordCount(chunk: string): (n: nat)
    ensures n == WordStarts(chunk, true)
  {
    SplitCountsWordStarts(chunk);
    |Split(chunk)|
  }

  /** The chunks joined in order. */
  function Concat(chunks: seq<string>): string {
    if chunks == [] then [] else Concat(chunks[..|chunks| - 1]) + chunks[|chunks| - 1]
  }

  /** Appending the chunks one by one, as `content += chunk` does, gives the
      same text as joining them from the front, as `"".join(chunks)` would. */
  lemma {:induction false} ConcatFront(chunks: seq<string>)
    requires chunks != []
    ensures Concat(chunks) == chunks[0] + Concat(chunks[1..])
    decreases |chunks|
  {
    var last := chunks[|chunks| - 1];
    if |chunks| == 1 {
      assert chunks[1..] == [];
      assert Concat(chunks) == Concat(chunks[..0]) + last;
    } else {
      var init := chunks[..|chunks| - 1];
      var tail := chunks[1..];
      ConcatFront(init);
      assert init[0] == chunks[0];
      assert init[1..] == tail[..|tail| - 1];
      assert tail[|tail| - 1] == last;
      assert Concat(tail) == Concat(init[1..]) + last;
      assert (chunks[0] + Concat(init[1..])) + last == chunks[0] + (Concat(init[1..]) + last);
    }
  }

  function TotalWords(chunks: seq<string>): nat {
    if chunks == [] then 0 else TotalWords(chunks[..|chunks| - 1]) + WordCount(chunks[|chunks| - 1])
  }

  /** `word_count` after the chunks have been processed: words accumulate, and
      the counter drops to 0 whenever it reaches the threshold. */
  function Counter(chunks: seq<string>): (n: nat)
    ensures n < FlushThreshold
  {
    if chunks == [] then 0
    else
      var c := Counter(chunks[..|chunks| - 1]) + WordCount(chunks[|chunks| - 1]);
      if c >= FlushThreshold then 0 else c
  }

  /** The content each dispatched update was dispatched with, in order: one
      for every chunk that brings the counter to the threshold. */
  function Dispatched(chunks: seq<string>): (snapshots: seq<string>)
    ensures |snapshots| <= |chunks|
  {
    if chunks == [] then []
    else
      var before := chunks[..|chunks| - 1];
      Dispatched(before)
        + (if Counter(before) + WordCount(chunks[|chunks| - 1]) >= FlushThreshold then [Concat(chunks)] else [])
  }

  /** The number of chunks taken before the clock passes the timeout: the
      index of the first arrival time strictly above `timeoutSeconds`. */
  function Taken(clock: seq<int>, timeoutSeconds: int): (k: nat)
    ensures k <= |clock|
    ensures forall i :: 0 <= i < k ==> clock[i] <= timeoutSeconds
    ensures k < |clock| ==> timeoutSeconds < clock[k]
  {
    if clock == [] || timeoutSeconds < clock[0] then 0 else 1 + Taken(clock[1..], timeoutSeconds)
  }

  /** Update threads freshly started for the given contents. */
  function Spawn(snapshots: seq<string>): (threads: seq<UpdateThread>)
    ensures |threads| == |snapshots|
  {
    seq(|snapshots|, i requires 0 <= i < |snapshots| => UpdateThread(snapshots[i], true))
  }

  /** The same threads once joined: none of them is alive any more. */
  function Joined(threads: seq<UpdateThread>): (r: seq<UpdateThread>)
    ensures |r| == |threads|
    ensures forall i :: 0 <= i < |r| ==> !r[i].alive && r[i].snapshot == threads[i].snapshot
  {
    seq(|threads|, i requires 0 <= i < |threads| => UpdateThread(threads[i].snapshot, false))
  }

  /** What joining one thread pushes: its rendering with the loading marker
      if it is still alive, nothing otherwise. */
  function UpdatePush(t: UpdateThread, render: string -> string): (ps: seq<Push>)
    ensures |ps| == (if t.alive then 1 else 0)
  {
    if t.alive then [IntermediatePush(render(t.snapshot))] else []
  }

  /** The pushes the threads that are still alive make when joined, in order. */
  function UpdatePushes(threads: seq<UpdateThread>, render: string -> string): seq<Push>
  {
    Pushed([], threads, |threads|, render)
  }

  /** `log` followed by the pushes of the first `n` threads. */
  function Pushed(log: seq<Push>, threads: seq<UpdateThread>, n: nat, render: string -> string): seq<Push>
    requires n <= |threads|
  {
    if n == 0 then log
    else Pushed(log, threads, n - 1, render) + UpdatePush(threads[n - 1], render)
  }

  lemma {:induction false} PushedAfter(log: seq<Push>, threads: seq<UpdateThread>, n: nat, render: string -> string)
    requires n <= |threads|
    ensures Pushed(log, threads, n, render) == log + Pushed([], threads, n, render)
    decreases n
  {
    if n > 0 {
      PushedAfter(log, threads, n - 1, render);
      var before := Pushed([], threads, n - 1, render);
      var last := UpdatePush(threads[n - 1], render);
      assert (log + before) + last == log + (before + last);
    } else {
      assert log + [] == log;
    }
  }

  /** `if t.is_alive(): t.join()`: a thread still alive runs its
      `update_message` (render its content, store it, push it with the loading
      marker) and ends. */
  method JoinUpdate(chat: Chat, t: UpdateThread, render: string -> string)
    requires chat.Valid()
    modifies chat`wipText, chat`pushes
    ensures chat.Valid()
    ensures chat.pushes == old(chat.pushes) + UpdatePush(t, render)
    ensures !t.alive ==> chat.wipText == old(chat.wipText)
  {
    if t.alive {
      var text := render(t.snapshot);
      chat.Show(text, text + LoadingCharacter);
    }
  }

  /** `for t in threads: if t.is_alive(): t.join()`: every thread still alive
      runs its `update_message` (render its content, store it, push it with the
      loading marker) and is then joined. */
  method JoinUpdates(chat: Chat, threads: seq<UpdateThread>, render: string -> string) returns (joined: seq<UpdateThread>)
    requires chat.Valid()
    modifies chat`wipText, chat`pushes
    ensures chat.Valid()
    ensures chat.pushes == old(chat.pushes) + UpdatePushes(threads, render)
    ensures UpdatePushes(threads, render) == [] ==> chat.wipText == old(chat.wipText)
    ensures joined == Joined(threads)
  {
    for i := 0 to |threads|
      invariant chat.Valid()
      invariant chat.pushes == Pushed(old(chat.pushes), threads, i, render)
      invariant |chat.pushes| >= |old(chat.pushes)|
      invariant |chat.pushes| == |old(chat.pushes)| ==> chat.wipText == old(chat.wipText)
    {
      JoinUpdate(chat, threads[i], render);
    }
    joined := Joined(threads);
    PushedAfter(old(chat.pushes), threads, |threads|, render);
  }

  /** `write_answer`: the whole answer is known; one update thread renders it
      with the loading marker and is joined at once, then the final rendering
      is pushed, and the second join finds no thread alive. */
  method WriteAnswer(chat: Chat, answer: string, render: string -> string)
    requires chat.Valid()
    modifies chat
    ensures chat.Valid()
    ensures chat.messages == old(chat.messages) + [Turn(Assistant, answer)]
    ensures var text := render(answer);
            chat.pushes == old(chat.pushes) + [IntermediatePush(text), FinalPush(text)]
            && chat.wipText == text
  {
    chat.messages := chat.messages + [Turn(Assistant, answer)];
    var spawned := [UpdateThread(answer, true)];
    assert Pushed([], spawned, 0, render) == [];
    assert UpdatePushes(spawned, render)
        == UpdatePush(spawned[0], render);
    var threads := JoinUpdates(chat, spawned, render);
    var text := render(answer);
    chat.Show(text, text);
    NothingAliveAfterJoin(spawned, render);
    threads := JoinUpdates(chat, threads, render);
  }

  /** The part of `consume_custom_stream_to_write_reply` before the final
      push: the assistant entry is appended, then `for chunk in stream` takes
      chunks until the stream ends, raises, or a chunk arrives after the
      timeout. `clock[i]` is the number of seconds elapsed since the call
      began when the i-th chunk arrives. The entry's content is the chunks
      taken, in order; `threads` are the updates dispatched on the way. */
  method TakeChunks(chat: Chat, stream: FragmentStream, clock: seq<int>, timeoutSeconds: int)
    returns (content: string, threads: seq<UpdateThread>, outcome: Outcome)
    requires stream.Valid()
    requires |clock| == |stream.fragments| - stream.pulled
    modifies chat`messages, stream`pulled
    ensures stream.Valid()
    ensures var rest := stream.fragments[old(stream.pulled)..];
            var k := Taken(clock, timeoutSeconds);
            && outcome == (if k < |rest| then TimedOut else if stream.raises then StreamFailed else Completed)
            && content == Concat(rest[..k])
            && chat.messages == old(chat.messages) + [Turn(Assistant, content)]
            && threads == Spawn(Dispatched(rest[..k]))
            && stream.pulled == old(stream.pulled) + (if k < |rest| then k + 1 else k)
  {
    ghost var rest := stream.fragments[stream.pulled..];
    ghost var start := stream.pulled;
    content := "";
    chat.messages := chat.messages + [Turn(Assistant, content)];
    var entry := |chat.messages| - 1;
    threads := [];
    var wordCount := 0;
    var i := 0;
    outcome := Completed;
    while true
      invariant stream.Valid() && stream.pulled == start + i && i <= |rest|
      invariant forall j :: 0 <= j < i ==> clock[j] <= timeoutSeconds
      invariant Tracks(rest[..i], content, wordCount, threads)
      invariant entry == |old(chat.messages)|
      invariant chat.messages == old(chat.messages) + [Turn(Assistant, content)]
      invariant outcome == Completed
      decreases |stream.fragments| - stream.pulled
    {
      var pull := stream.Next();
      if pull.Exhausted? {
        break;
      }
      if pull.Raised? {
        outcome := StreamFailed;
        break;
      }
      var chunk := pull.text;
      var spentSeconds := clock[i];
      if timeoutSeconds < spentSeconds {
        outcome := TimedOut;
        break;
      }
      ghost var before := (content, wordCount, threads);
      content, wordCount, threads := AddChunk(chat, entry, content, wordCount, threads, chunk);
      TakeStep(rest, i, before.0, before.1, before.2, content, wordCount, threads);
      i := i + 1;
    }
    TakenIs(clock, timeoutSeconds, i);
  }

  /** The body of `for chunk in stream` once the chunk is in time: it is
      appended to the assistant entry and its words are counted; reaching the
      threshold dispatches an update with the content so far and resets the
      counter. */
  method AddChunk(chat: Chat, entry: nat, content: string, wordCount: nat,
                  threads: seq<UpdateThread>, chunk: string)
    returns (content': string, wordCount': nat, threads': seq<UpdateThread>)
    requires entry < |chat.messages|
    modifies chat`messages
    ensures content' == content + chunk
    ensures chat.messages == old(chat.messages)[entry := Turn(Assistant, content')]
    ensures var c := wordCount + WordCount(chunk);
            && wordCount' == (if c >= FlushThreshold then 0 else c)
            && threads' == threads + (if c >= FlushThreshold then [UpdateThread(content', true)] else [])
  {
    content' := content + chunk;
    chat.messages := chat.messages[entry := Turn(Assistant, content')];
    wordCount' := wordCount + WordCount(chunk);
    threads' := threads;
    if wordCount' >= FlushThreshold {
      threads' := threads' + [UpdateThread(content', true)];
      wordCount' := 0;
    }
  }

  /** `consume_custom_stream_to_write_reply`. The assistant entry keeps
      whatever was taken, on every exit path; only a normal end pushes the
      final rendering; the update threads are joined and the stream is closed
      once, whichever way the call ends. */
  method ConsumeCustomStreamToWriteReply(chat: Chat, stream: FragmentStream, clock: seq<int>,
                                         timeoutSeconds: int, render: string -> string) returns (outcome: Outcome)
    requires chat.Valid() && stream.Valid()
    requires |clock| == |stream.fragments| - stream.pulled
    modifies chat, stream
    ensures chat.Valid() && stream.Valid()
    ensures var rest := stream.fragments[old(stream.pulled)..];
            var k := Taken(clock, timeoutSeconds);
            && outcome == (if k < |rest| then TimedOut else if stream.raises then StreamFailed else Completed)
            && chat.messages == old(chat.messages) + [Turn(Assistant, Concat(rest[..k]))]
            && chat.pushes == old(chat.pushes)
                 + (if outcome == Completed then [FinalPush(render(Concat(rest)))] else [])
                 + UpdatePushes(Spawn(Dispatched(rest[..k])), render)
            && stream.pulled == old(stream.pulled) + (if k < |rest| then k + 1 else k)
            && stream.closeCalls == old(stream.closeCalls) + 1
    ensures chat.pushes == old(chat.pushes) ==> chat.wipText == old(chat.wipText)
  {
    ghost var rest := stream.fragments[stream.pulled..];
    var content, threads;
    content, threads, outcome := TakeChunks(chat, stream, clock, timeoutSeconds);
    assert outcome == Completed ==> rest[..Taken(clock, timeoutSeconds)] == rest;
    ghost var final: seq<Push> := [];
    if outcome == Completed {
      var text := render(content);
      chat.Show(text, text);
      final := [FinalPush(text)];
    }
    assert chat.pushes == old(chat.pushes) + final;
    threads := JoinUpdates(chat, threads, render);
    stream.Close();
  }

  // ------------------------------------------------------------ properties

  /** Taking one more chunk: it is appended to the content, counted, and
      dispatches an update with the new content when the count reaches the
      threshold. */
  lemma ChunkStep(chunks: seq<string>, i: nat)
    requires i < |chunks|
    ensures Concat(chunks[..i + 1]) == Concat(chunks[..i]) + chunks[i]
    ensures var c := Counter(chunks[..i]) + WordCount(chunks[i]);
            && Counter(chunks[..i + 1]) == (if c >= FlushThreshold then 0 else c)
            && Spawn(Dispatched(chunks[..i + 1]))
               == Spawn(Dispatched(chunks[..i]))
                  + (if c >= FlushThreshold then [UpdateThread(Concat(chunks[..i + 1]), true)] else [])
  {
    assert chunks[..i + 1][..i] == chunks[..i];
  }

  /** One turn of the loop keeps the content, the counter and the threads
      equal to their values as functions of the chunks taken. */
  /** The loop's variables hold what the chunks taken so far determine. */
  ghost predicate Tracks(taken: seq<string>, content: string, wordCount: nat, threads: seq<UpdateThread>) {
    && content == Concat(taken)
    && wordCount == Counter(taken)
    && threads == Spawn(Dispatched(taken))
  }

  /** One turn of the loop keeps the content, the counter and the threads
      equal to their values as functions of the chunks taken. */
  lemma TakeStep(chunks: seq<string>, i: nat, content: string, wordCount: nat, threads: seq<UpdateThread>,
                 content': string, wordCount': nat, threads': seq<UpdateThread>)
    requires i < |chunks|
    requires Tracks(chunks[..i], content, wordCount, threads)
    requires content' == content + chunks[i]
    requires var c := wordCount + WordCount(chunks[i]);
             && wordCount' == (if c >= FlushThreshold then 0 else c)
             && threads' == threads + (if c >= FlushThreshold then [UpdateThread(content', true)] else [])
    ensures Tracks(chunks[..i + 1], content', wordCount', threads')
  {
    ChunkStep(chunks, i);
  }

  /** The loop stops at the first chunk that arrives after the timeout. */
  lemma TakenIs(clock: seq<int>, timeoutSeconds: int, i: nat)
    requires i <= |clock|
    requires forall j :: 0 <= j < i ==> clock[j] <= timeoutSeconds
    requires i < |clock| ==> timeoutSeconds < clock[i]
    ensures Taken(clock, timeoutSeconds) == i
  {
  }

  /** Threads that have been joined render nothing when joined again. */
  lemma NothingAliveAfterJoin(threads: seq<UpdateThread>, render: string -> string)
    ensures UpdatePushes(Joined(threads), render) == []
  {
    NoneAlivePushNothing(Joined(threads), |threads|, render);
  }

  lemma {:induction false} NoneAlivePushNothing(threads: seq<UpdateThread>, n: nat, render: string -> string)
    requires n <= |threads|
    requires forall j :: 0 <= j < n ==> !threads[j].alive
    ensures Pushed([], threads, n, render) == []
    decreases n
  {
    if n > 0 {
      NoneAlivePushNothing(threads, n - 1, render);
    }
  }

  /** The counter never loses its bound and every dispatch stands for at
      least ten words: ten times the number of dispatches plus what the
      counter holds is at most the number of words taken, and no chunk
      dispatches more than once. The counter drops to 0 rather than keeping
      the excess, so the inequality is strict whenever a chunk overshoots. */
  lemma {:induction false} ThrottleBound(chunks: seq<string>)
    ensures FlushThreshold * |Dispatched(chunks)| + Counter(chunks) <= TotalWords(chunks)
    ensures |Dispatched(chunks)| <= |chunks|
    decreases |chunks|
  {
    if chunks != [] {
      ThrottleBound(chunks[..|chunks| - 1]);
    }
  }

  /** A chunk that dispatches an update has words, hence characters. */
  lemma WordsAreNonEmpty(chunk: string)
    requires WordCount(chunk) > 0
    ensures |chunk| > 0
  {
  }

  /** The updates are dispatched with ever longer prefixes of the content:
      each is a prefix of everything taken, and each is a proper prefix of
      the ones dispatched after it. */
  lemma {:induction false} SnapshotsGrow(chunks: seq<string>)
    ensures forall i :: 0 <= i < |Dispatched(chunks)| ==> Dispatched(chunks)[i] <= Concat(chunks)
    ensures forall i, j :: 0 <= i < j < |Dispatched(chunks)| ==> Dispatched(chunks)[i] < Dispatched(chunks)[j]
    decreases |chunks|
  {
    if chunks != [] {
      var before := chunks[..|chunks| - 1];
      var last := chunks[|chunks| - 1];
      SnapshotsGrow(before);
      var d := Dispatched(before);
      var whole := Concat(chunks);
      assert whole == Concat(before) + last;
      assert Concat(before) <= whole;
      forall i | 0 <= i < |d|
        ensures d[i] <= whole
      {
        assert d[i] <= Concat(before);
        assert whole[..|d[i]|] == Concat(before)[..|d[i]|];
      }
      if Counter(before) + WordCount(last) >= FlushThreshold {
        WordsAreNonEmpty(last);
        assert Dispatched(chunks) == d + [whole];
        forall i | 0 <= i < |d|
          ensures d[i] < whole
        {
          assert d[i] <= Concat(before);
        }
      } else {
        assert Dispatched(chunks) == d;
      }
    }
  }

  /** Counting one more chunk modulo the threshold. */
  lemma NextCount(m: nat)
    ensures (m + 1) / FlushThreshold == m / FlushThreshold + (if m % FlushThreshold == FlushThreshold - 1 then 1 else 0)
    ensures (m + 1) % FlushThreshold == (if m % FlushThreshold == FlushThreshold - 1 then 0 else m % FlushThreshold + 1)
  {
  }

  /** With one word per chunk, every tenth chunk dispatches an update and the
      counter holds the number of chunks since the last one. */
  lemma {:induction false} OneWordChunks(chunks: seq<string>)
    requires forall i :: 0 <= i < |chunks| ==> WordCount(chunks[i]) == 1
    ensures |Dispatched(chunks)| == |chunks| / FlushThreshold
    ensures Counter(chunks) == |chunks| % FlushThreshold
    decreases |chunks|
  {
    if chunks != [] {
      var before := chunks[..|chunks| - 1];
      forall i | 0 <= i < |before|
        ensures WordCount(before[i]) == 1
      {
        assert before[i] == chunks[i];
      }
      OneWordChunks(before);
      OneWordStep(before, chunks[|chunks| - 1]);
      assert before + [chunks[|chunks| - 1]] == chunks;
    }
  }

  /** One more one-word chunk moves the counter on by one, wrapping at the threshold. */
  lemma OneWordStep(before: seq<string>, chunk: string)
    requires |Dispatched(before)| == |before| / FlushThreshold
    requires Counter(before) == |before| % FlushThreshold
    requires WordCount(chunk) == 1
    ensures |Dispatched(before + [chunk])| == (|before| + 1) / FlushThreshold
    ensures Counter(before + [chunk]) == (|before| + 1) % FlushThreshold
  {
    var chunks := before + [chunk];
    assert chunks[..|chunks| - 1] == before;
    NextCount(|before|);
  }

  /** Ten one-word chunks: exactly one update is dispatched, at the last
      chunk, with the whole content, and the counter is back at 0. */
  lemma TenOneWordChunks(chunks: seq<string>)
    requires |chunks| == FlushThreshold
    requires forall i :: 0 <= i < |chunks| ==> WordCount(chunks[i]) == 1
    ensures Dispatched(chunks) == [Concat(chunks)] && Counter(chunks) == 0
  {
    var before := chunks[..FlushThreshold - 1];
    forall i | 0 <= i < |before|
      ensures WordCount(before[i]) == 1
    {
      assert before[i] == chunks[i];
    }
    OneWordChunks(before);
    assert WordCount(chunks[FlushThreshold - 1]) == 1;
  }

  /** What the dispatched updates push, once joined: one push per dispatch, in
      dispatch order, each the formatted snapshot followed by the loading marker. */
  lemma SpawnedUpdatesPush(snapshots: seq<string>, render: string -> string)
    ensures var ps := UpdatePushes(Spawn(snapshots), render);
            && |ps| == |snapshots|
            && forall i :: 0 <= i < |ps| ==>
                 ps[i].stored == render(snapshots[i])
                 && ps[i].sent == ps[i].stored + LoadingCharacter
  {
    SpawnedPrefixPush(snapshots, |snapshots|, render);
  }

  lemma {:induction false} SpawnedPrefixPush(snapshots: seq<string>, n: nat, render: string -> string)
    requires n <= |snapshots|
    ensures var ps := Pushed([], Spawn(snapshots), n, render);
            && |ps| == n
            && forall i :: 0 <= i < n ==>
                 ps[i] == IntermediatePush(render(snapshots[i]))
    decreases n
  {
    if n > 0 {
      SpawnedPrefixPush(snapshots, n - 1, render);
      assert Spawn(snapshots)[n - 1] == UpdateThread(snapshots[n - 1], true);
    }
  }
}
