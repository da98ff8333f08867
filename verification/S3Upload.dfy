/** The multipart uploader of the S3 file system (httpfs/src/s3fs.cpp): one writer fills part buffers, each
    full buffer is sent by its own thread. A state is what all of them share plus where each one is; a run
    interleaves their steps in any order, and every step touches shared data once. */
module S3Upload {
  import opened Basics

  const LIMIT16: nat := 0x1_0000

  /** Most parts a 16-bit part count can number. */
  const MAX_PARTS: nat := 0xFFFF

  datatype Config = Config(partSize: nat, maxThreads: nat) {
    predicate Valid() { partSize > 0 && 0 < maxThreads < LIMIT16 }
  }

  datatype Buffer = Buffer(partID: nat, start: nat, data: seq<Byte>, filled: nat, uploading: bool)

  /** Where an upload thread is. The last three are the path of a failed request. */
  datatype Stage = Started | Stored | Recorded | Counted | Returned | Finished | Failing | Flagged | Failed

  datatype Thread = Thread(buffer: Buffer, etag: nat, stage: Stage)

  /** One request the server carried out. */
  datatype Put = Put(number: nat, etag: nat, data: seq<Byte>)

  /** What the writer goes on with after handing over a buffer. */
  datatype Cont = BackToWrite(bytes: seq<Byte>, offset: nat, done: nat, n: nat) | BackToFlush(todo: set<nat>)

  /** Where the writer is: outside, in the loop of writeFile, handing over a buffer, or in flushAllBuffers. */
  datatype Writer =
    | Idle
    | Writing(bytes: seq<Byte>, offset: nat, done: nat)
    | Filling(bytes: seq<Byte>, offset: nat, done: nat, idx: nat)
    | Detaching(idx: nat, cont: Cont)
    | Counting(buffer: Buffer, cont: Cont)
    | Spawning(buffer: Buffer, cont: Cont)
    | Flushing(todo: set<nat>)
    | Waiting
    | Done
    | Broken

  /** written and puts are histories: all bytes accepted so far, all requests carried out so far. */
  datatype State = State(pc: Writer, fileOffset: nat, writeBuffers: map<nat, Buffer>, threads: seq<Thread>,
                         used: nat, inProgress: nat, numParts: nat, etags: map<nat, nat>, exception: bool,
                         puts: seq<Put>, written: seq<Byte>)

  function Init(): State {
    State(Idle, 0, map[], [], 0, 0, 0, map[], false, [], [])
  }

  function Inc16(x: nat): nat { (x + 1) % LIMIT16 }

  function Dec16(x: nat): nat { (x + LIMIT16 - 1) % LIMIT16 }

  function Overwrite(data: seq<Byte>, at: nat, chunk: seq<Byte>): (r: seq<Byte>)
    ensures |r| == |data|
  {
    if at + |chunk| <= |data| then data[..at] + chunk + data[at + |chunk|..] else data
  }

  function Content(b: Buffer): seq<Byte> {
    if b.filled <= |b.data| then b.data[..b.filled] else b.data
  }

  // ------------------------------------------------------------------ the writer's steps

  /** A call of writeFile whose last byte lies in a part that 16 bits can number. */
  ghost predicate Begin(c: Config, s: State, s': State, bytes: seq<Byte>, offset: nat) {
    && s.pc == Idle && offset + |bytes| <= MAX_PARTS * c.partSize
    && s' == s.(pc := Writing(bytes, offset, 0))
  }

  /** The loop head: finish, refuse a non-sequential write, or get the buffer for the current offset. A
      new buffer is only handed out while fewer than maxThreads are in use; otherwise the writer waits. */
  ghost predicate LoopHead(c: Config, s: State, s': State) {
    && s.pc.Writing? && c.partSize > 0
    && if s.pc.done >= |s.pc.bytes| || s.pc.offset + s.pc.done != s.fileOffset then
         s' == s.(pc := Idle)
       else
         var idx := ((s.pc.offset + s.pc.done) / c.partSize) % LIMIT16;
         var next := Filling(s.pc.bytes, s.pc.offset, s.pc.done, idx);
         if idx in s.writeBuffers then
           s' == s.(pc := next)
         else
           && s.used < c.maxThreads
           && s' == s.(pc := next, used := Inc16(s.used), writeBuffers := s.writeBuffers[idx := NewBuffer(c, idx)])
  }

  function NewBuffer(c: Config, idx: nat): Buffer {
    Buffer(idx, idx * c.partSize, seq(c.partSize, _ => 0), 0, false)
  }

  /** Copies as much as fits into the buffer. */
  ghost predicate Fill(c: Config, s: State, s': State) {
    && s.pc.Filling? && s.pc.idx in s.writeBuffers && s.pc.done <= |s.pc.bytes|
    && var b := s.writeBuffers[s.pc.idx];
       var at := s.fileOffset - b.start;
       0 <= at <= c.partSize &&
       var n := Min(|s.pc.bytes| - s.pc.done, c.partSize - at);
       var chunk := s.pc.bytes[s.pc.done..s.pc.done + n];
       var b' := b.(data := Overwrite(b.data, at, chunk), filled := b.filled + n);
       var t := s.(writeBuffers := s.writeBuffers[s.pc.idx := b'], written := s.written + chunk);
       if b'.filled >= c.partSize then
         s' == t.(pc := Detaching(s.pc.idx, BackToWrite(s.pc.bytes, s.pc.offset, s.pc.done, n)))
       else
         s' == t.(pc := Writing(s.pc.bytes, s.pc.offset, s.pc.done + n), fileOffset := s.fileOffset + n)
  }

  function Resume(s: State, cont: Cont): State {
    match cont
    case BackToWrite(bytes, offset, done, n) => s.(pc := Writing(bytes, offset, done + n), fileOffset := s.fileOffset + n)
    case BackToFlush(todo) => s.(pc := Flushing(todo))
  }

  /** Claims the buffer for upload, reports an earlier failure, and takes the buffer out of the map. */
  ghost predicate Detach(c: Config, s: State, s': State) {
    && s.pc.Detaching? && s.pc.idx in s.writeBuffers
    && var b := s.writeBuffers[s.pc.idx];
       if b.filled == 0 || b.uploading then
         s' == Resume(s, s.pc.cont)
       else if s.exception then
         s' == s.(pc := Broken, writeBuffers := s.writeBuffers[s.pc.idx := b.(uploading := true)])
       else
         s' == s.(pc := Counting(b.(uploading := true), s.pc.cont), writeBuffers := s.writeBuffers - {b.partID})
  }

  ghost predicate CountUpload(c: Config, s: State, s': State) {
    && s.pc.Counting?
    && s' == s.(pc := Spawning(s.pc.buffer, s.pc.cont), inProgress := Inc16(s.inProgress))
  }

  ghost predicate Spawn(c: Config, s: State, s': State) {
    && s.pc.Spawning?
    && s' == Resume(s.(threads := s.threads + [Thread(s.pc.buffer, 0, Started)]), s.pc.cont)
  }

  ghost predicate BeginFlush(c: Config, s: State, s': State) {
    s.pc == Idle && s' == s.(pc := Flushing(s.writeBuffers.Keys))
  }

  /** Takes any buffer collected at the start, or goes on to wait. */
  ghost predicate FlushNext(c: Config, s: State, s': State) {
    && s.pc.Flushing?
    && if s.pc.todo == {} then s' == s.(pc := Waiting)
       else exists idx: nat :: idx in s.pc.todo && s' == s.(pc := Detaching(idx, BackToFlush(s.pc.todo - {idx})))
  }

  ghost predicate Wait(c: Config, s: State, s': State) {
    && s.pc == Waiting && s.inProgress == 0
    && s' == s.(pc := if s.exception then Broken else Done)
  }

  // ------------------------------------------------------------------ an upload thread's steps

  function At(s: State, k: nat, stage: Stage): State
    requires k < |s.threads|
  {
    s.(threads := s.threads[k := s.threads[k].(stage := stage)])
  }

  /** The request succeeds: the server keeps the part under the given tag. */
  ghost predicate PutOk(c: Config, s: State, s': State, k: nat, etag: nat) {
    && k < |s.threads| && s.threads[k].stage == Started
    && var b := s.threads[k].buffer;
       s' == s.(threads := s.threads[k := Thread(b, etag, Stored)], puts := s.puts + [Put(b.partID + 1, etag, Content(b))])
  }

  /** The request fails, before or after the server kept the part. */
  ghost predicate PutFails(c: Config, s: State, s': State, k: nat, kept: bool, etag: nat) {
    && k < |s.threads| && s.threads[k].stage == Started
    && var b := s.threads[k].buffer;
       s' == At(s, k, Failing).(puts := if kept then s.puts + [Put(b.partID + 1, etag, Content(b))] else s.puts)
  }

  /** The remaining steps of a thread, one shared access each. */
  ghost predicate Advance(c: Config, s: State, s': State, k: nat) {
    && k < |s.threads|
    && var t := s.threads[k];
       match t.stage
       case Stored =>
         s' == At(s, k, Recorded).(etags := if t.buffer.partID in s.etags then s.etags else s.etags[t.buffer.partID := t.etag])
       case Recorded => s' == At(s, k, Counted).(numParts := Inc16(s.numParts))
       case Counted => s' == At(s, k, Returned).(used := Dec16(s.used))
       case Returned => s' == At(s, k, Finished).(inProgress := Dec16(s.inProgress))
       case Failing => s' == At(s, k, Flagged).(exception := true)
       case Flagged => s' == At(s, k, Failed).(inProgress := Dec16(s.inProgress))
       case _ => false
  }

  ghost predicate WriterStep(c: Config, s: State, s': State) {
    || (exists bytes: seq<Byte>, offset: nat :: Begin(c, s, s', bytes, offset))
    || LoopHead(c, s, s') || Fill(c, s, s') || Detach(c, s, s') || CountUpload(c, s, s') || Spawn(c, s, s')
    || BeginFlush(c, s, s') || FlushNext(c, s, s') || Wait(c, s, s')
  }

  ghost predicate ThreadStep(c: Config, s: State, s': State, k: nat) {
    || (exists etag: nat :: PutOk(c, s, s', k, etag))
    || (exists kept: bool, etag: nat :: PutFails(c, s, s', k, kept, etag))
    || Advance(c, s, s', k)
  }

  ghost predicate Next(c: Config, s: State, s': State) {
    WriterStep(c, s, s') || exists k: nat :: ThreadStep(c, s, s', k)
  }

  ghost predicate Run(c: Config, run: seq<State>) {
    && run != [] && run[0] == Init()
    && forall i :: 0 <= i < |run| - 1 ==> Next(c, run[i], run[i + 1])
  }

  // ------------------------------------------------------------------ counting threads

  predicate Running(g: Stage) { g != Finished && g != Failed }

  /** A failed thread never gives its slot back. */
  predicate HoldsSlot(g: Stage) { g != Returned && g != Finished }

  predicate IsCounted(g: Stage) { g in {Counted, Returned, Finished} }

  predicate IsRecorded(g: Stage) { g == Recorded || IsCounted(g) }

  predicate IsStored(g: Stage) { g == Stored || IsRecorded(g) }

  predicate IsFailed(g: Stage) { g in {Failing, Flagged, Failed} }

  /** Will give its slot back unless its request fails. */
  predicate InFlight(g: Stage) { g in {Started, Stored, Recorded, Counted} }

  ghost function Count(ts: seq<Thread>, f: Stage -> bool): nat {
    if ts == [] then 0 else Count(ts[..|ts| - 1], f) + (if f(ts[|ts| - 1].stage) then 1 else 0)
  }

  lemma {:induction false} CountUpdate(ts: seq<Thread>, k: nat, t: Thread, f: Stage -> bool)
    requires k < |ts|
    ensures Count(ts[k := t], f) == Count(ts, f) + (if f(t.stage) then 1 else 0) - (if f(ts[k].stage) then 1 else 0)
  {
    var n := |ts| - 1;
    if k < n {
      CountUpdate(ts[..n], k, t, f);
      assert ts[k := t][..n] == ts[..n][k := t];
    } else {
      assert ts[k := t][..n] == ts[..n];
    }
  }

  lemma CountAppend(ts: seq<Thread>, t: Thread, f: Stage -> bool)
    ensures Count(ts + [t], f) == Count(ts, f) + (if f(t.stage) then 1 else 0)
  {
    assert (ts + [t])[..|ts|] == ts;
  }

  lemma {:induction false} CountBounds(ts: seq<Thread>, f: Stage -> bool)
    ensures Count(ts, f) <= |ts|
    ensures Count(ts, f) == |ts| <==> forall k :: 0 <= k < |ts| ==> f(ts[k].stage)
    ensures Count(ts, f) == 0 <==> forall k :: 0 <= k < |ts| ==> !f(ts[k].stage)
  {
    if ts != [] {
      CountBounds(ts[..|ts| - 1], f);
    }
  }

  lemma {:induction false} CountSplit(ts: seq<Thread>)
    ensures Count(ts, HoldsSlot) == Count(ts, InFlight) + Count(ts, IsFailed)
  {
    if ts != [] {
      CountSplit(ts[..|ts| - 1]);
    }
  }

  // ------------------------------------------------------------------ the invariant

  ghost function Sent(ts: seq<Thread>): seq<Byte> {
    if ts == [] then [] else Sent(ts[..|ts| - 1]) + Content(ts[|ts| - 1].buffer)
  }

  lemma SentAppend(ts: seq<Thread>, t: Thread)
    ensures Sent(ts + [t]) == Sent(ts) + Content(t.buffer)
  {
    assert (ts + [t])[..|ts|] == ts;
  }

  lemma {:induction false} SentUpdate(ts: seq<Thread>, k: nat, t: Thread)
    requires k < |ts| && t.buffer == ts[k].buffer
    ensures Sent(ts[k := t]) == Sent(ts)
  {
    var n := |ts| - 1;
    if k < n {
      SentUpdate(ts[..n], k, t);
      assert ts[k := t][..n] == ts[..n][k := t];
    } else {
      assert ts[k := t][..n] == ts[..n];
    }
  }

  /** Buffer k with its place in the file. */
  ghost predicate IsPart(c: Config, b: Buffer, k: nat) {
    b.partID == k && b.start == k * c.partSize && |b.data| == c.partSize && b.filled <= c.partSize && k < MAX_PARTS
  }

  /** Thread k carries part k, and something is in it. */
  ghost predicate PartsInOrder(c: Config, ts: seq<Thread>) {
    |ts| <= MAX_PARTS && forall k: nat :: k < |ts| ==> IsPart(c, ts[k].buffer, k) && ts[k].buffer.filled > 0
  }

  /** All parts sent so far are full, and together they are a prefix of the file. */
  ghost predicate FullParts(c: Config, s: State) {
    && |Sent(s.threads)| == |s.threads| * c.partSize
  }

  /** The only buffer in the map is the next part, not yet claimed. */
  ghost predicate OnlyNext(c: Config, s: State) {
    s.writeBuffers.Keys == {|s.threads|} && IsPart(c, s.writeBuffers[|s.threads|], |s.threads|)
    && !s.writeBuffers[|s.threads|].uploading
  }

  /** Everything accepted is in a thread or in the open buffer. */
  ghost predicate Settled(c: Config, s: State) {
    if s.writeBuffers == map[] then Sent(s.threads) == s.written
    else
      OnlyNext(c, s) && 0 < s.writeBuffers[|s.threads|].filled < c.partSize &&
      Sent(s.threads) + Content(s.writeBuffers[|s.threads|]) == s.written
  }

  ghost predicate ContOk(c: Config, s: State, cont: Cont, b: Buffer) {
    match cont
    case BackToWrite(bytes, offset, done, n) =>
      && done + n <= |bytes| && offset + done == s.fileOffset && s.fileOffset + n == |s.written|
      && offset + |bytes| <= MAX_PARTS * c.partSize && b.filled == c.partSize
    case BackToFlush(todo) => todo == {}
  }

  ghost predicate HandedOver(c: Config, s: State, b: Buffer, cont: Cont) {
    && s.writeBuffers == map[] && IsPart(c, b, |s.threads|) && b.filled > 0
    && Sent(s.threads) + Content(b) == s.written && ContOk(c, s, cont, b)
  }

  ghost predicate WriterOk(c: Config, s: State) {
    match s.pc
    case Idle => FullParts(c, s) && Settled(c, s) && s.fileOffset == |s.written|
    case Writing(bytes, offset, done) =>
      FullParts(c, s) && Settled(c, s) && s.fileOffset == |s.written| && done <= |bytes|
      && offset + |bytes| <= MAX_PARTS * c.partSize
    case Filling(bytes, offset, done, idx) =>
      && FullParts(c, s) && OnlyNext(c, s) && idx == |s.threads| && s.writeBuffers[idx].filled < c.partSize
      && Sent(s.threads) + Content(s.writeBuffers[idx]) == s.written && s.fileOffset == |s.written|
      && done < |bytes| && offset + done == s.fileOffset && offset + |bytes| <= MAX_PARTS * c.partSize
    case Detaching(idx, cont) =>
      && FullParts(c, s) && OnlyNext(c, s) && idx == |s.threads| && s.writeBuffers[idx].filled > 0
      && Sent(s.threads) + Content(s.writeBuffers[idx]) == s.written && ContOk(c, s, cont, s.writeBuffers[idx])
    case Counting(b, cont) => FullParts(c, s) && HandedOver(c, s, b, cont)
    case Spawning(b, cont) => FullParts(c, s) && HandedOver(c, s, b, cont)
    case Flushing(todo) =>
      todo == s.writeBuffers.Keys && Settled(c, s) && (todo != {} ==> FullParts(c, s))
    case Waiting => s.writeBuffers == map[] && Sent(s.threads) == s.written
    case Done => Sent(s.threads) == s.written && s.inProgress == 0 && !s.exception
    case Broken => s.exception
  }

  /** Slots held by the writer: the open buffer and the one being handed over. */
  ghost function Held(s: State): nat {
    |s.writeBuffers| + (if s.pc.Counting? || s.pc.Spawning? then 1 else 0)
  }

  ghost predicate Counters(c: Config, s: State) {
    && s.used == Count(s.threads, HoldsSlot) + Held(s) && s.used <= c.maxThreads
    && s.inProgress == Count(s.threads, Running) + (if s.pc.Spawning? then 1 else 0)
    && s.numParts == Count(s.threads, IsCounted)
    && (forall k: nat :: k < |s.threads| && s.threads[k].stage in {Flagged, Failed} ==> s.exception)
  }

  /** The latest request the server carried out for a part number. */
  function Latest(puts: seq<Put>, number: nat): Option<Put> {
    if puts == [] then None
    else if puts[|puts| - 1].number == number then Some(puts[|puts| - 1])
    else Latest(puts[..|puts| - 1], number)
  }

  ghost predicate UploadedOnce(puts: seq<Put>) {
    forall i: nat, j: nat :: i < j < |puts| ==> puts[i].number != puts[j].number
  }

  /** Every request carried the part it was numbered for. */
  ghost predicate PutsOk(puts: seq<Put>, ts: seq<Thread>) {
    && UploadedOnce(puts)
    && forall j: nat :: j < |puts| ==>
      && 1 <= puts[j].number <= |ts|
      && ts[puts[j].number - 1].stage != Started
      && puts[j].data == Content(ts[puts[j].number - 1].buffer)
  }

  ghost predicate StoredOk(puts: seq<Put>, ts: seq<Thread>) {
    forall k: nat :: k < |ts| && IsStored(ts[k].stage) ==>
      Latest(puts, k + 1) == Some(Put(k + 1, ts[k].etag, Content(ts[k].buffer)))
  }

  ghost predicate EtagsOk(etags: map<nat, nat>, ts: seq<Thread>) {
    && (forall k: nat :: k in etags <==> k < |ts| && IsRecorded(ts[k].stage))
    && (forall k: nat :: k in etags ==> etags[k] == ts[k].etag)
  }

  ghost predicate ServerOk(s: State) {
    PutsOk(s.puts, s.threads) && StoredOk(s.puts, s.threads) && EtagsOk(s.etags, s.threads)
  }

  ghost predicate Inv(c: Config, s: State) {
    c.Valid() && PartsInOrder(c, s.threads) && WriterOk(c, s) && Counters(c, s) && ServerOk(s)
  }

  lemma InitInv(c: Config)
    requires c.Valid()
    ensures Inv(c, Init())
  {
  }

  // ------------------------------------------------------------------ every step keeps it

  lemma ThreadChange(c: Config, s: State, s': State, k: nat, t: Thread)
    requires k < |s.threads| && t.buffer == s.threads[k].buffer && s'.threads == s.threads[k := t]
    requires s'.pc == s.pc && s'.fileOffset == s.fileOffset && s'.writeBuffers == s.writeBuffers && s'.written == s.written
    requires PartsInOrder(c, s.threads) && WriterOk(c, s)
    requires s.pc == Done ==> s'.inProgress == 0 && !s'.exception
    requires s.pc == Broken ==> s'.exception
    ensures PartsInOrder(c, s'.threads) && WriterOk(c, s')
  {
    SentUpdate(s.threads, k, t);
  }

  lemma CountsChange(ts: seq<Thread>, k: nat, t: Thread, f: Stage -> bool)
    requires k < |ts|
    ensures Count(ts[k := t], f) == Count(ts, f) + (if f(t.stage) then 1 else 0) - (if f(ts[k].stage) then 1 else 0)
    ensures Count(ts, f) <= |ts|
    ensures f(ts[k].stage) ==> Count(ts, f) > 0
    ensures !f(ts[k].stage) ==> Count(ts, f) < |ts|
  {
    CountUpdate(ts, k, t, f);
    CountBounds(ts, f);
  }

  lemma IncFits(x: nat)
    requires x < MAX_PARTS
    ensures Inc16(x) == x + 1
  {
  }

  lemma DecFits(x: nat)
    requires 0 < x <= MAX_PARTS
    ensures Dec16(x) == x - 1
  {
  }

  /** What a thread's step leaves alone. */
  ghost predicate OnlyThread(s: State, s': State, k: nat) {
    && k < |s.threads| == |s'.threads| && s'.threads == s.threads[k := s'.threads[k]]
    && s'.threads[k].buffer == s.threads[k].buffer
    && s'.pc == s.pc && s'.fileOffset == s.fileOffset && s'.writeBuffers == s.writeBuffers && s'.written == s.written
    && Running(s.threads[k].stage)
    && (s.exception ==> s'.exception)
  }

  lemma ThreadShape(c: Config, s: State, s': State, k: nat)
    requires ThreadStep(c, s, s', k)
    ensures OnlyThread(s, s', k)
  {
    hide Inc16, Dec16, Content, Advance;
    if Advance(c, s, s', k) {
      AdvanceShape(c, s, s', k);
    } else if etag: nat :| PutOk(c, s, s', k, etag) {
    } else {
      var kept: bool, etag: nat :| PutFails(c, s, s', k, kept, etag);
    }
  }

  lemma AdvanceShape(c: Config, s: State, s': State, k: nat)
    requires Advance(c, s, s', k)
    ensures OnlyThread(s, s', k)
  {
    hide Inc16, Dec16;
    var t := s.threads[k];
    assert s'.threads == s.threads[k := t.(stage := s'.threads[k].stage)];
  }

  /** How a thread's stage and the counters move together. */
  ghost predicate StageMove(s: State, s': State, g: Stage, g': Stage) {
    && (g, g') in {(Started, Stored), (Started, Failing), (Stored, Recorded), (Recorded, Counted), (Counted, Returned),
                   (Returned, Finished), (Failing, Flagged), (Flagged, Failed)}
    && s'.used == (if g == Counted then Dec16(s.used) else s.used)
    && s'.numParts == (if g == Recorded then Inc16(s.numParts) else s.numParts)
    && s'.inProgress == (if g' in {Finished, Failed} then Dec16(s.inProgress) else s.inProgress)
    && s'.exception == (s.exception || g == Failing)
  }

  lemma ThreadMoves(c: Config, s: State, s': State, k: nat)
    requires ThreadStep(c, s, s', k)
    ensures k < |s.threads| == |s'.threads| && StageMove(s, s', s.threads[k].stage, s'.threads[k].stage)
  {
    hide Inc16, Dec16, Content, Advance;
    if Advance(c, s, s', k) {
      AdvanceMoves(c, s, s', k);
    } else if etag: nat :| PutOk(c, s, s', k, etag) {
    } else {
      var kept: bool, etag: nat :| PutFails(c, s, s', k, kept, etag);
    }
  }

  lemma AdvanceMoves(c: Config, s: State, s': State, k: nat)
    requires Advance(c, s, s', k)
    ensures k < |s.threads| == |s'.threads| && StageMove(s, s', s.threads[k].stage, s'.threads[k].stage)
  {
    hide Inc16, Dec16;
  }

  lemma ThreadCounts(c: Config, s: State, s': State, k: nat)
    requires Counters(c, s) && OnlyThread(s, s', k) && |s.threads| <= MAX_PARTS && c.maxThreads < LIMIT16
    requires s.pc.Spawning? ==> |s.threads| < MAX_PARTS
    requires StageMove(s, s', s.threads[k].stage, s'.threads[k].stage)
    ensures Counters(c, s')
  {
    hide Count, Inc16, Dec16;
    var t := s'.threads[k];
    CountsChange(s.threads, k, t, HoldsSlot);
    CountsChange(s.threads, k, t, Running);
    CountsChange(s.threads, k, t, IsCounted);
    if s.threads[k].stage == Counted {
      DecFits(s.used);
    }
    if s.threads[k].stage == Recorded {
      IncFits(s.numParts);
    }
    if t.stage in {Finished, Failed} {
      DecFits(s.inProgress);
    }
  }

  lemma ThreadInv(c: Config, s: State, s': State, k: nat)
    requires Inv(c, s) && ThreadStep(c, s, s', k)
    ensures Inv(c, s')
  {
    hide WriterOk, Counters, ServerOk, Count, ThreadStep, StageMove;
    ThreadShape(c, s, s', k);
    ThreadMoves(c, s, s', k);
    EndFacts(c, s, k);
    ThreadChange(c, s, s', k, s'.threads[k]);
    ThreadCounts(c, s, s', k);
    ThreadServer(c, s, s', k);
  }

  lemma EndFacts(c: Config, s: State, k: nat)
    requires Inv(c, s) && k < |s.threads| && Running(s.threads[k].stage)
    ensures s.pc != Done && (s.pc == Broken ==> s.exception) && s.threads[k].buffer.partID == k
    ensures s.pc.Spawning? ==> |s.threads| < MAX_PARTS
  {
    CountBounds(s.threads, Running);
  }

  // ------------------------------------------------------------------ requests and tags

  lemma LatestSkips(puts: seq<Put>, p: Put, number: nat)
    ensures Latest(puts + [p], number) == if p.number == number then Some(p) else Latest(puts, number)
  {
    assert (puts + [p])[..|puts|] == puts;
  }

  lemma PutKeeps(puts: seq<Put>, ts: seq<Thread>, k: nat, t: Thread, etag: nat)
    requires PutsOk(puts, ts) && StoredOk(puts, ts) && k < |ts| && ts[k].stage == Started && t.stage != Started
    requires t.buffer == ts[k].buffer && (IsStored(t.stage) ==> t.etag == etag)
    ensures var puts' := puts + [Put(k + 1, etag, Content(t.buffer))];
            PutsOk(puts', ts[k := t]) && StoredOk(puts', ts[k := t])
  {
    var p := Put(k + 1, etag, Content(t.buffer));
    hide Content;
    forall x: nat
      ensures Latest(puts + [p], x) == if x == k + 1 then Some(p) else Latest(puts, x)
    {
      LatestSkips(puts, p, x);
    }
    hide Latest;
  }

  lemma StageKeeps(puts: seq<Put>, ts: seq<Thread>, k: nat, t: Thread)
    requires PutsOk(puts, ts) && StoredOk(puts, ts) && k < |ts| && t.stage != Started
    requires t.buffer == ts[k].buffer && (IsStored(t.stage) ==> IsStored(ts[k].stage) && t.etag == ts[k].etag)
    ensures PutsOk(puts, ts[k := t]) && StoredOk(puts, ts[k := t])
  {
    hide Content, Latest;
  }

  lemma EtagsKeep(etags: map<nat, nat>, ts: seq<Thread>, k: nat, t: Thread)
    requires EtagsOk(etags, ts) && k < |ts| && IsRecorded(t.stage) == IsRecorded(ts[k].stage)
    requires IsRecorded(t.stage) ==> t.etag == ts[k].etag
    ensures EtagsOk(etags, ts[k := t])
  {
  }

  lemma EtagsGrow(etags: map<nat, nat>, ts: seq<Thread>, k: nat, t: Thread)
    requires EtagsOk(etags, ts) && k < |ts| && IsRecorded(t.stage) && !IsRecorded(ts[k].stage)
    ensures k !in etags && EtagsOk(etags[k := t.etag], ts[k := t])
  {
  }

  lemma ThreadServer(c: Config, s: State, s': State, k: nat)
    requires Inv(c, s) && ThreadStep(c, s, s', k)
    ensures ServerOk(s')
  {
    hide Inv, PutsOk, StoredOk, EtagsOk, Latest, Content, Advance;
    InvServer(c, s);
    ThreadShape(c, s, s', k);
    EndFacts(c, s, k);
    var t := s'.threads[k];
    if etag: nat :| PutOk(c, s, s', k, etag) {
      PutKeeps(s.puts, s.threads, k, t, etag);
      EtagsKeep(s.etags, s.threads, k, t);
    } else if kept: bool, etag: nat :| PutFails(c, s, s', k, kept, etag) {
      if kept {
        PutKeeps(s.puts, s.threads, k, t, etag);
      } else {
        StageKeeps(s.puts, s.threads, k, t);
      }
      EtagsKeep(s.etags, s.threads, k, t);
    } else {
      AdvanceServer(c, s, s', k);
    }
  }

  lemma AdvanceEffect(c: Config, s: State, s': State, k: nat)
    requires Advance(c, s, s', k)
    ensures s'.threads == s.threads[k := s.threads[k].(stage := s'.threads[k].stage)]
  {
    hide Inc16, Dec16;
  }

  lemma AdvanceTags(c: Config, s: State, s': State, k: nat)
    requires Advance(c, s, s', k)
    ensures s'.puts == s.puts && s.threads[k].stage != Started
    ensures s'.etags == if s.threads[k].stage == Stored && s.threads[k].buffer.partID !in s.etags
                        then s.etags[s.threads[k].buffer.partID := s.threads[k].etag] else s.etags
  {
    hide Inc16, Dec16;
  }

  lemma AdvanceServer(c: Config, s: State, s': State, k: nat)
    requires ServerOk(s) && Advance(c, s, s', k) && s.threads[k].buffer.partID == k
    ensures ServerOk(s')
  {
    hide PutsOk, StoredOk, EtagsOk, Latest, Content, Advance;
    AdvanceMoves(c, s, s', k);
    AdvanceEffect(c, s, s', k);
    AdvanceTags(c, s, s', k);
    var t := s'.threads[k];
    StageKeeps(s.puts, s.threads, k, t);
    if s.threads[k].stage == Stored {
      EtagsGrow(s.etags, s.threads, k, t);
    } else {
      EtagsKeep(s.etags, s.threads, k, t);
    }
  }

  lemma InvServer(c: Config, s: State)
    requires Inv(c, s)
    ensures ServerOk(s)
  {
  }

  // ------------------------------------------------------------------ the writer's steps keep the invariant

  lemma TimesMonotone(a: nat, b: nat, size: nat)
    requires a <= b
    ensures a * size <= b * size
  {
  }

  lemma SameQuotient(k: nat, r: nat, q: nat, m: nat, size: nat)
    requires k * size + r == q * size + m && r < size && m < size
    ensures k == q
  {
    NextPart(q, size);
    NextPart(k, size);
    if q < k {
      TimesMonotone(q + 1, k, size);
    } else if k < q {
      TimesMonotone(k + 1, q, size);
    }
  }

  lemma PartIndex(k: nat, r: nat, size: nat)
    requires r < size
    ensures (k * size + r) / size == k
  {
    var x := k * size + r;
    SameQuotient(k, r, x / size, x % size, size);
  }

  lemma PartBelow(k: nat, r: nat, size: nat, max: nat)
    requires k * size + r < max * size
    ensures k < max
  {
    if k >= max {
      TimesMonotone(max, k, size);
    }
  }

  lemma NextPart(k: nat, size: nat)
    ensures (k + 1) * size == k * size + size
  {
  }

  /** The offset of the next byte lies in the part after those already sent. */
  lemma CurrentPart(c: Config, s: State)
    requires Inv(c, s) && s.pc.Writing? && s.pc.done < |s.pc.bytes| && s.pc.offset + s.pc.done == s.fileOffset
    ensures |s.threads| < MAX_PARTS && (s.fileOffset / c.partSize) % LIMIT16 == |s.threads|
  {
    hide Count, ServerOk, Counters, PartsInOrder;
    var k, r := |s.threads|, |s.written| - |Sent(s.threads)|;
    assert s.fileOffset == k * c.partSize + r;
    PartIndex(k, r, c.partSize);
    PartBelow(k, r, c.partSize, MAX_PARTS);
  }

  lemma LoopHeadWriter(c: Config, s: State, s': State)
    requires Inv(c, s) && LoopHead(c, s, s')
    ensures WriterOk(c, s') && Counters(c, s')
  {
    hide Count, ServerOk, Inc16, PartsInOrder, Sent, Running, HoldsSlot, IsCounted;
    if s.pc.done < |s.pc.bytes| && s.pc.offset + s.pc.done == s.fileOffset {
      CurrentPart(c, s);
      var k := |s.threads|;
      if k !in s.writeBuffers {
        assert s.writeBuffers == map[];
        IncFits(s.used);
        assert s'.writeBuffers == map[k := NewBuffer(c, k)];
        assert Content(NewBuffer(c, k)) == [];
        assert Sent(s.threads) + [] == Sent(s.threads);
      }
    }
  }

  /** The copy starts where the buffer ends, so it stays inside the buffer. */
  lemma FillInBounds(c: Config, s: State)
    requires Inv(c, s) && s.pc.Filling?
    ensures s.pc.idx == |s.threads| && s.pc.idx in s.writeBuffers
    ensures var b := s.writeBuffers[s.pc.idx];
            b.start <= s.fileOffset && s.fileOffset - b.start == b.filled < c.partSize == |b.data|
  {
    hide Count, ServerOk, Counters, PartsInOrder;
  }

  lemma FillWriter(c: Config, s: State, s': State)
    requires Inv(c, s) && Fill(c, s, s')
    ensures WriterOk(c, s')
  {
    hide Count, ServerOk, Counters, PartsInOrder, Overwrite, Content, Sent;
    FillInBounds(c, s);
    var b := s.writeBuffers[s.pc.idx];
    var n := Min(|s.pc.bytes| - s.pc.done, c.partSize - b.filled);
    var chunk := s.pc.bytes[s.pc.done..s.pc.done + n];
    FillContent(b, chunk);
    assert s'.writeBuffers.Keys == {|s.threads|};
    assert Sent(s.threads) + (Content(b) + chunk) == (Sent(s.threads) + Content(b)) + chunk;
    assert 0 < n;
  }

  lemma FillContent(b: Buffer, chunk: seq<Byte>)
    requires b.filled + |chunk| <= |b.data|
    ensures Content(b.(data := Overwrite(b.data, b.filled, chunk), filled := b.filled + |chunk|)) == Content(b) + chunk
  {
  }

  lemma FillCounters(c: Config, s: State, s': State)
    requires Inv(c, s) && Fill(c, s, s')
    ensures Counters(c, s')
  {
    hide Count, ServerOk, Overwrite;
    assert s'.writeBuffers.Keys == s.writeBuffers.Keys;
    assert |s'.writeBuffers| == |s'.writeBuffers.Keys| && |s.writeBuffers| == |s.writeBuffers.Keys|;
  }

  lemma DetachInv(c: Config, s: State, s': State)
    requires Inv(c, s) && Detach(c, s, s')
    ensures WriterOk(c, s') && Counters(c, s')
  {
    hide Count, ServerOk, Sent;
    var k := |s.threads|;
    var b := s.writeBuffers[k];
    assert |s.writeBuffers| == |s.writeBuffers.Keys| && |s'.writeBuffers| == |s'.writeBuffers.Keys|;
    assert Content(b.(uploading := true)) == Content(b);
    if s.exception {
      assert s'.writeBuffers.Keys == s.writeBuffers.Keys;
    } else {
      assert s'.writeBuffers == map[];
    }
  }

  lemma CountUploadInv(c: Config, s: State, s': State)
    requires Inv(c, s) && CountUpload(c, s, s')
    ensures WriterOk(c, s') && Counters(c, s')
  {
    hide Count, ServerOk, Sent, Inc16, Content;
    CountBounds(s.threads, Running);
    IncFits(s.inProgress);
  }

  lemma SpawnWriter(c: Config, s: State, s': State)
    requires Inv(c, s) && Spawn(c, s, s')
    ensures PartsInOrder(c, s'.threads) && WriterOk(c, s')
  {
    hide Count, ServerOk, Counters, Sent;
    SentAppend(s.threads, Thread(s.pc.buffer, 0, Started));
    NextPart(|s.threads|, c.partSize);
  }

  lemma SpawnCounters(c: Config, s: State, s': State)
    requires Inv(c, s) && Spawn(c, s, s')
    ensures Counters(c, s')
  {
    hide Count, ServerOk, Sent;
    var t := Thread(s.pc.buffer, 0, Started);
    CountAppend(s.threads, t, HoldsSlot);
    CountAppend(s.threads, t, Running);
    CountAppend(s.threads, t, IsCounted);
  }

  lemma SpawnServer(c: Config, s: State, s': State)
    requires Inv(c, s) && Spawn(c, s, s')
    ensures ServerOk(s')
  {
    hide Count, Latest, Content, WriterOk, Counters, PartsInOrder;
  }

  /** Steps that only change where the writer is. */
  lemma WriterMoves(c: Config, s: State, s': State)
    requires Inv(c, s)
    requires (exists bytes: seq<Byte>, offset: nat :: Begin(c, s, s', bytes, offset)) || BeginFlush(c, s, s') ||
             FlushNext(c, s, s') || Wait(c, s, s')
    ensures Inv(c, s')
  {
    hide Count, ServerOk, Sent, Content, PartsInOrder, IsPart;
    if FlushNext(c, s, s') && s.pc.todo != {} {
      var k := |s.threads|;
      assert s.writeBuffers != map[] && s.pc.todo == {k};
      var idx: nat :| idx in s.pc.todo && s' == s.(pc := Detaching(idx, BackToFlush(s.pc.todo - {idx})));
      assert idx == k && s.pc.todo - {idx} == {};
    } else if s.pc.Flushing? {
      assert s.writeBuffers == map[];
    } else if s.pc == Idle {
    }
    PcKeepsServer(s, s');
  }

  lemma PcKeepsServer(s: State, s': State)
    requires ServerOk(s) && s'.threads == s.threads && s'.puts == s.puts && s'.etags == s.etags
    ensures ServerOk(s')
  {
  }

  lemma WriterInv(c: Config, s: State, s': State)
    requires Inv(c, s) && WriterStep(c, s, s')
    ensures Inv(c, s')
  {
    hide *;
    if LoopHead(c, s, s') {
      LoopHeadWriter(c, s, s');
      KeepsRest(c, s, s');
    } else if Fill(c, s, s') {
      FillWriter(c, s, s');
      FillCounters(c, s, s');
      KeepsRest(c, s, s');
    } else if Detach(c, s, s') {
      DetachInv(c, s, s');
      KeepsRest(c, s, s');
    } else if CountUpload(c, s, s') {
      CountUploadInv(c, s, s');
      KeepsRest(c, s, s');
    } else if Spawn(c, s, s') {
      SpawnWriter(c, s, s');
      SpawnCounters(c, s, s');
      SpawnServer(c, s, s');
      InvFrom(c, s, s');
    } else {
      Remaining(c, s, s');
      WriterMoves(c, s, s');
    }
  }

  lemma Remaining(c: Config, s: State, s': State)
    requires WriterStep(c, s, s') && !LoopHead(c, s, s') && !Fill(c, s, s') && !Detach(c, s, s') && !CountUpload(c, s, s')
    requires !Spawn(c, s, s')
    ensures (exists bytes: seq<Byte>, offset: nat :: Begin(c, s, s', bytes, offset)) || BeginFlush(c, s, s') ||
            FlushNext(c, s, s') || Wait(c, s, s')
  {
  }

  lemma InvFrom(c: Config, s: State, s': State)
    requires Inv(c, s) && PartsInOrder(c, s'.threads) && WriterOk(c, s') && Counters(c, s') && ServerOk(s')
    ensures Inv(c, s')
  {
  }

  lemma KeepsRest(c: Config, s: State, s': State)
    requires Inv(c, s) && WriterOk(c, s') && Counters(c, s')
    requires LoopHead(c, s, s') || Fill(c, s, s') || Detach(c, s, s') || CountUpload(c, s, s')
    ensures Inv(c, s')
  {
    hide WriterOk, Counters, PartsInOrder, Inc16, Content, PutsOk, StoredOk, EtagsOk;
    assert s'.threads == s.threads && s'.puts == s.puts && s'.etags == s.etags;
  }

  // ------------------------------------------------------------------ whole runs

  /** Every state of every run. */
  lemma {:induction false} RunInv(c: Config, run: seq<State>, i: nat)
    requires c.Valid() && Run(c, run) && i < |run|
    ensures Inv(c, run[i])
  {
    hide *;
    RunStep(c, run, i);
    if i == 0 {
      InitInv(c);
    } else {
      RunInv(c, run, i - 1);
      StepInv(c, run[i - 1], run[i]);
    }
  }

  lemma RunStep(c: Config, run: seq<State>, i: nat)
    requires Run(c, run) && i < |run|
    ensures run[0] == Init() && (i > 0 ==> Next(c, run[i - 1], run[i]))
  {
    assert i > 0 ==> Next(c, run[i - 1], run[i - 1 + 1]);
  }

  lemma StepInv(c: Config, s: State, s': State)
    requires Inv(c, s) && Next(c, s, s')
    ensures Inv(c, s')
  {
    hide Inv, WriterStep, ThreadStep;
    if WriterStep(c, s, s') {
      WriterInv(c, s, s');
    } else {
      var k: nat :| ThreadStep(c, s, s', k);
      ThreadInv(c, s, s', k);
    }
  }

  // ------------------------------------------------------------------ completing the upload

  /** One line of the completion request. */
  datatype Line = Line(number: nat, etag: nat)

  /** The lines of the completion request; None is the exception for an unknown part number. */
  method FinalizeBody(etags: map<nat, nat>, numParts: nat) returns (body: Option<seq<Line>>)
    ensures body.Some? <==> forall i: nat :: i < numParts ==> i in etags
    ensures body.Some? ==> Lists(etags, numParts, body.value)
  {
    var lines: seq<Line> := [];
    for i := 0 to numParts
      invariant |lines| == i
      invariant forall j: nat :: j < i ==> j in etags && lines[j] == Line(j + 1, etags[j])
    {
      if i !in etags {
        return None;
      }
      lines := lines + [Line(i + 1, etags[i])];
    }
    return Some(lines);
  }

  ghost predicate Lists(etags: map<nat, nat>, numParts: nat, body: seq<Line>) {
    |body| == numParts && forall i: nat :: i < numParts ==> i in etags && body[i] == Line(i + 1, etags[i])
  }

  /** The object the server assembles: the listed parts in order, each checked against its tag. */
  function Assembled(puts: seq<Put>, body: seq<Line>): Option<seq<Byte>> {
    if body == [] then Some([])
    else
      var rest, line := Assembled(puts, body[..|body| - 1]), body[|body| - 1];
      var part := Latest(puts, line.number);
      if rest.Some? && part.Some? && part.value.etag == line.etag then Some(rest.value + part.value.data) else None
  }

  lemma {:induction false} AssembledIsSent(s: State, body: seq<Line>, n: nat)
    requires StoredOk(s.puts, s.threads) && EtagsOk(s.etags, s.threads) && n <= |s.threads|
    requires forall k: nat :: k < n ==> IsStored(s.threads[k].stage) && IsRecorded(s.threads[k].stage)
    requires Lists(s.etags, n, body)
    ensures Assembled(s.puts, body) == Some(Sent(s.threads[..n]))
  {
    hide Latest, Content;
    if n > 0 {
      AssembledIsSent(s, body[..n - 1], n - 1);
      assert s.threads[..n][..n - 1] == s.threads[..n - 1];
    }
  }

  ghost predicate HasPut(puts: seq<Put>, number: nat) {
    exists j: nat :: j < |puts| && puts[j].number == number
  }

  // ------------------------------------------------------------------ every byte of every call

  /** What a step adds to the bytes the caller handed over: a call at the current offset adds its bytes, a
      call at any other offset is refused. */
  ghost function Taken(s: State, s': State): seq<Byte> {
    if s.pc.Idle? && s'.pc.Writing? && s'.pc.offset == s.fileOffset then s'.pc.bytes else []
  }

  /** The bytes of all accepted calls, in the order of the calls. */
  ghost function Accepted(run: seq<State>): seq<Byte> {
    if |run| <= 1 then [] else Accepted(run[..|run| - 1]) + Taken(run[|run| - 2], run[|run| - 1])
  }

  ghost function Tail(bytes: seq<Byte>, done: nat): seq<Byte> {
    if done <= |bytes| then bytes[done..] else []
  }

  ghost function ContRest(cont: Cont): seq<Byte> {
    match cont case BackToWrite(bytes, _, done, n) => Tail(bytes, done + n) case BackToFlush(_) => []
  }

  /** What the call under way has still to write. */
  ghost function Rest(s: State): seq<Byte> {
    match s.pc
    case Writing(bytes, offset, done) => if offset + done == s.fileOffset then Tail(bytes, done) else []
    case Filling(bytes, _, done, _) => Tail(bytes, done)
    case Detaching(_, cont) => ContRest(cont)
    case Counting(_, cont) => ContRest(cont)
    case Spawning(_, cont) => ContRest(cont)
    case _ => []
  }

  lemma FillEffect(c: Config, s: State, s': State) returns (n: nat)
    requires Fill(c, s, s') && s.pc.offset + s.pc.done == s.fileOffset
    ensures s.pc.Filling? && s.pc.done + n <= |s.pc.bytes| && s'.written == s.written + s.pc.bytes[s.pc.done..s.pc.done + n]
    ensures Rest(s') == s.pc.bytes[s.pc.done + n..]
  {
    hide Overwrite;
    n := Min(|s.pc.bytes| - s.pc.done, c.partSize - (s.fileOffset - s.writeBuffers[s.pc.idx].start));
  }

  lemma FillAccounts(c: Config, s: State, s': State)
    requires Inv(c, s) && Fill(c, s, s')
    ensures s'.written + Rest(s') == s.written + Rest(s) && s.pc.Filling?
  {
    FillingOffset(c, s);
    hide Inv, Fill;
    var n := FillEffect(c, s, s');
    var bytes, done := s.pc.bytes, s.pc.done;
    assert Rest(s) == bytes[done..] == bytes[done..done + n] + bytes[done + n..];
  }

  lemma FillingOffset(c: Config, s: State)
    requires Inv(c, s)
    ensures s.pc.Filling? ==> s.pc.offset + s.pc.done == s.fileOffset && s.pc.done < |s.pc.bytes|
  {
    hide Sent, Count, ServerOk, PartsInOrder, Counters, FullParts, OnlyNext, Content;
  }

  lemma ResumeAccounts(c: Config, s: State, s': State)
    requires Inv(c, s) && (Detach(c, s, s') || CountUpload(c, s, s') || Spawn(c, s, s')) && s'.pc != Broken
    ensures s'.written == s.written && Rest(s') == Rest(s) && !s.pc.Idle?
  {
    hide Sent, Count, ServerOk, PartsInOrder, Counters, FullParts, OnlyNext, Content, Inc16;
  }

  lemma HeadAccounts(c: Config, s: State, s': State)
    requires Inv(c, s) && LoopHead(c, s, s')
    ensures s'.written == s.written && Rest(s') == Rest(s) && !s.pc.Idle?
  {
    hide Sent, Count, ServerOk, PartsInOrder, Counters, FullParts, OnlyNext, Content, Inc16, NewBuffer, Settled;
  }

  /** A step of the writer that does not report a failure loses no byte and invents none. */
  lemma WriterAccounts(c: Config, s: State, s': State)
    requires Inv(c, s) && WriterStep(c, s, s') && s'.pc != Broken
    ensures s'.written + Rest(s') == s.written + Rest(s) + Taken(s, s')
  {
    hide Inv, Begin, LoopHead, Fill, Detach, CountUpload, Spawn, BeginFlush, FlushNext, Wait, Taken, Rest;
    if bytes: seq<Byte>, offset: nat :| Begin(c, s, s', bytes, offset) {
      BeginAccounts(c, s, s', bytes, offset);
    } else if LoopHead(c, s, s') {
      HeadAccounts(c, s, s');
      NoneTaken(s, s');
    } else if Fill(c, s, s') {
      FillAccounts(c, s, s');
      NoneTaken(s, s');
    } else if Detach(c, s, s') || CountUpload(c, s, s') || Spawn(c, s, s') {
      ResumeAccounts(c, s, s');
      NoneTaken(s, s');
    } else {
      FlushAccounts(c, s, s');
    }
  }

  lemma BeginAccounts(c: Config, s: State, s': State, bytes: seq<Byte>, offset: nat)
    requires Begin(c, s, s', bytes, offset)
    ensures s'.written == s.written && Rest(s) == [] && Rest(s') == Taken(s, s')
  {
    assert bytes[0..] == bytes;
  }

  lemma FlushAccounts(c: Config, s: State, s': State)
    requires BeginFlush(c, s, s') || FlushNext(c, s, s') || Wait(c, s, s')
    ensures s'.written == s.written && Rest(s) == [] && Rest(s') == [] && Taken(s, s') == []
  {
  }

  lemma BrokenWrites(c: Config, s: State, s': State)
    requires WriterStep(c, s, s') && s'.pc == Broken
    ensures s'.written == s.written && Taken(s, s') == [] && s.pc != Broken
  {
    hide Overwrite, NewBuffer, Inc16;
  }

  lemma {:induction false} RunAccounts(c: Config, run: seq<State>)
    requires c.Valid() && Run(c, run)
    ensures var s := run[|run| - 1];
            && s.written <= Accepted(run) && (s.pc != Broken ==> s.written + Rest(s) == Accepted(run))
    decreases |run|
  {
    hide Inv, WriterStep, ThreadStep, Rest;
    if |run| == 1 {
      NothingAccepted();
    } else {
      var n := |run| - 1;
      RunPrefix(c, run, n);
      RunAccounts(c, run[..n]);
      RunInv(c, run, n - 1);
      RunStep(c, run, n - 1);
      assert run[..n][n - 1] == run[n - 1];
      StepAccounts(c, run[n - 1], run[n], Accepted(run[..n]));
    }
  }

  lemma NothingAccepted()
    ensures Init().written == [] && Rest(Init()) == []
  {
  }

  lemma StepAccounts(c: Config, s: State, s': State, before: seq<Byte>)
    requires Inv(c, s) && Next(c, s, s') && s.written <= before && (s.pc != Broken ==> s.written + Rest(s) == before)
    ensures s'.written <= before + Taken(s, s')
    ensures s'.pc != Broken ==> s'.written + Rest(s') == before + Taken(s, s')
  {
    hide Inv, WriterStep, ThreadStep;
    if k: nat :| ThreadStep(c, s, s', k) {
      ThreadShape(c, s, s', k);
    } else if s'.pc == Broken {
      BrokenWrites(c, s, s');
    } else {
      NotFromBroken(c, s, s');
      WriterAccounts(c, s, s');
    }
  }

  lemma NotFromBroken(c: Config, s: State, s': State)
    requires WriterStep(c, s, s')
    ensures s.pc != Broken
  {
  }

  /** Between calls, and once the flush is done: what was written is exactly the bytes of all accepted
      calls. */
  lemma WrittenIsAccepted(c: Config, run: seq<State>, i: nat)
    requires c.Valid() && Run(c, run) && i < |run| && run[i].pc in {Idle, Waiting, Done}
    ensures run[i].written == Accepted(run[..i + 1])
  {
    hide Run;
    RunPrefix(c, run, i + 1);
    RunAccounts(c, run[..i + 1]);
    assert run[i].written + [] == run[i].written;
  }

  lemma RunPrefix(c: Config, run: seq<State>, n: nat)
    requires Run(c, run) && 0 < n <= |run|
    ensures Run(c, run[..n])
  {
    hide Next;
    var front := run[..n];
    forall i | 0 <= i < |front| - 1
      ensures Next(c, front[i], front[i + 1])
    {
      assert front[i] == run[i] && front[i + 1] == run[i + 1];
    }
  }

  /** One call, from its start to the next time the writer is idle: all its bytes are written, or, at another
      offset than the current one, none. */
  lemma CallWritesAll(c: Config, run: seq<State>, i: nat, j: nat, bytes: seq<Byte>, offset: nat)
    requires c.Valid() && Run(c, run) && i < j < |run| && Begin(c, run[i], run[i + 1], bytes, offset)
    requires run[j].pc == Idle && forall k :: i < k < j ==> run[k].pc != Idle
    ensures run[j].written == run[i].written + (if offset == run[i].fileOffset then bytes else [])
  {
    hide Run;
    WrittenIsAccepted(c, run, i);
    WrittenIsAccepted(c, run, j);
    OneCall(run, i, j);
  }

  lemma NoneTaken(s: State, s': State)
    requires s.pc != Idle
    ensures Taken(s, s') == []
  {
  }

  lemma AcceptedStep(run: seq<State>, j: nat)
    requires 0 < j < |run|
    ensures Accepted(run[..j + 1]) == Accepted(run[..j]) + Taken(run[j - 1], run[j])
  {
    hide Taken;
    var all := run[..j + 1];
    assert all[..j] == run[..j];
  }

  /** No call starts while the writer is busy. */
  lemma {:induction false} OneCall(run: seq<State>, i: nat, j: nat)
    requires i < j < |run| && forall k :: i < k < j ==> run[k].pc != Idle
    ensures Accepted(run[..j + 1]) == Accepted(run[..i + 1]) + Taken(run[i], run[i + 1])
    decreases j
  {
    hide Accepted, Taken;
    AcceptedStep(run, j);
    if i + 1 < j {
      OneCall(run, i, j - 1);
      NoneTaken(run[j - 1], run[j]);
    }
  }

  /** Once flushAllBuffers returns, whatever the interleaving: the tags are those of parts 0 to
      numParts - 1, each part was uploaded exactly once, and the parts make up the bytes of all accepted
      calls. */
  lemma UploadComplete(c: Config, run: seq<State>, i: nat, body: seq<Line>)
    requires c.Valid() && Run(c, run) && i < |run| && run[i].pc == Done
    ensures var s := run[i];
            && (forall k: nat :: k in s.etags <==> k < s.numParts)
            && UploadedOnce(s.puts)
            && (forall x: nat :: HasPut(s.puts, x) <==> 1 <= x <= s.numParts)
            && (Lists(s.etags, s.numParts, body) ==> Assembled(s.puts, body) == Some(Accepted(run[..i + 1])))
  {
    hide Run, Inv, Latest, Sent, WriterOk, Count, UploadedOnce, Assembled;
    var s := run[i];
    RunInv(c, run, i);
    DoneFacts(c, s);
    WrittenIsAccepted(c, run, i);
    forall x: nat | 1 <= x <= s.numParts
      ensures HasPut(s.puts, x)
    {
      assert IsStored(s.threads[x - 1].stage);
      LatestIsPut(s.puts, x);
    }
    if Lists(s.etags, s.numParts, body) {
      AssembledIsSent(s, body, |s.threads|);
      assert s.threads[..|s.threads|] == s.threads;
    }
  }

  lemma {:induction false} LatestIsPut(puts: seq<Put>, number: nat)
    requires Latest(puts, number).Some?
    ensures HasPut(puts, number)
  {
    if puts[|puts| - 1].number != number {
      LatestIsPut(puts[..|puts| - 1], number);
      var j: nat :| j < |puts| - 1 && puts[..|puts| - 1][j].number == number;
      assert puts[j].number == number;
    }
  }

  lemma DoneFacts(c: Config, s: State)
    requires Inv(c, s) && s.pc == Done
    ensures ServerOk(s) && Sent(s.threads) == s.written && s.numParts == |s.threads|
    ensures forall k: nat :: k < |s.threads| ==> s.threads[k].stage == Finished
  {
    hide Count, ServerOk, PartsInOrder;
    CountBounds(s.threads, Running);
    CountBounds(s.threads, IsCounted);
  }

  // ------------------------------------------------------------------ waiting for a slot

  /** The writer needs a new buffer and every slot is taken. */
  ghost predicate Blocked(c: Config, s: State) {
    && s.pc.Writing? && s.pc.done < |s.pc.bytes| && s.pc.offset + s.pc.done == s.fileOffset && c.partSize > 0
    && (s.fileOffset / c.partSize) % LIMIT16 !in s.writeBuffers && s.used >= c.maxThreads
  }

  /** A blocked writer has an upload that may still release it exactly when fewer uploads failed than
      there are slots: a failed upload keeps its slot. */
  lemma BlockedIffLeaked(c: Config, s: State)
    requires Inv(c, s) && Blocked(c, s)
    ensures (exists k: nat :: k < |s.threads| && InFlight(s.threads[k].stage)) <==> Count(s.threads, IsFailed) < c.maxThreads
    ensures Count(s.threads, IsFailed) <= c.maxThreads
  {
    hide Count, ServerOk, PartsInOrder, Sent;
    CurrentPart(c, s);
    assert s.writeBuffers == map[];
    CountSplit(s.threads);
    CountBounds(s.threads, InFlight);
  }

  /** Steps of one thread alone. */
  ghost predicate ThreadRun(c: Config, path: seq<State>, k: nat) {
    path != [] && forall i :: 0 <= i < |path| - 1 ==> ThreadStep(c, path[i], path[i + 1], k)
  }

  function Rank(g: Stage): nat {
    match g case Started => 4 case Stored => 3 case Recorded => 2 case Counted => 1 case _ => 0
  }

  lemma ThreadSteps(c: Config, s: State, k: nat) returns (s': State)
    requires Inv(c, s) && k < |s.threads| && InFlight(s.threads[k].stage)
    ensures ThreadStep(c, s, s', k) && s'.pc == s.pc
    ensures Rank(s'.threads[k].stage) == Rank(s.threads[k].stage) - 1
    ensures if s.threads[k].stage == Counted then s'.used + 1 == s.used
            else InFlight(s'.threads[k].stage) && s'.used == s.used
  {
    hide Inv;
    var t := s.threads[k];
    match t.stage {
      case Started =>
        s' := s.(threads := s.threads[k := Thread(t.buffer, 0, Stored)],
                 puts := s.puts + [Put(t.buffer.partID + 1, 0, Content(t.buffer))]);
        assert PutOk(c, s, s', k, 0);
      case Stored =>
        s' := At(s, k, Recorded).(etags := if t.buffer.partID in s.etags then s.etags else s.etags[t.buffer.partID := t.etag]);
      case Recorded => s' := At(s, k, Counted).(numParts := Inc16(s.numParts));
      case Counted =>
        s' := At(s, k, Returned).(used := Dec16(s.used));
        UsedFits(c, s, k);
        DecFits(s.used);
    }
  }

  lemma UsedFits(c: Config, s: State, k: nat)
    requires Inv(c, s) && k < |s.threads| && HoldsSlot(s.threads[k].stage)
    ensures 0 < s.used <= MAX_PARTS
  {
    CountBounds(s.threads, HoldsSlot);
  }

  /** At most four steps of an upload in flight, with its request succeeding, free a slot. */
  lemma {:induction false} Releases(c: Config, s: State, k: nat) returns (path: seq<State>)
    requires Inv(c, s) && k < |s.threads| && InFlight(s.threads[k].stage)
    ensures ThreadRun(c, path, k) && path[0] == s && |path| <= 5
    ensures path[|path| - 1].pc == s.pc && path[|path| - 1].used + 1 == s.used && |path| == Rank(s.threads[k].stage) + 1
    decreases Rank(s.threads[k].stage)
  {
    hide Inv, ThreadStep;
    var s' := ThreadSteps(c, s, k);
    ThreadInv(c, s, s', k);
    ThreadShape(c, s, s', k);
    if s.threads[k].stage == Counted {
      path := [s, s'];
    } else {
      var rest := Releases(c, s', k);
      path := [s] + rest;
    }
  }

  /** Where the writer may stay for good. */
  predicate AtRest(pc: Writer) { pc in {Idle, Done, Broken} }

  lemma RunningSteps(c: Config, s: State, k: nat) returns (s': State)
    requires Inv(c, s) && k < |s.threads| && Running(s.threads[k].stage)
    ensures ThreadStep(c, s, s', k)
  {
    hide Inv;
    if InFlight(s.threads[k].stage) {
      s' := ThreadSteps(c, s, k);
    } else {
      match s.threads[k].stage {
        case Returned => s' := At(s, k, Finished).(inProgress := Dec16(s.inProgress));
        case Failing => s' := At(s, k, Flagged).(exception := true);
        case Flagged => s' := At(s, k, Failed).(inProgress := Dec16(s.inProgress));
      }
    }
  }

  lemma WriterSteps(c: Config, s: State) returns (s': State)
    requires Inv(c, s) && !AtRest(s.pc) && !Blocked(c, s) && (s.pc == Waiting ==> s.inProgress == 0)
    ensures WriterStep(c, s, s')
  {
    hide Count, ServerOk, Counters, PartsInOrder, Sent;
    match s.pc {
      case Writing(bytes, offset, done) =>
        if done >= |bytes| || offset + done != s.fileOffset {
          s' := s.(pc := Idle);
        } else {
          var idx := ((offset + done) / c.partSize) % LIMIT16;
          s' := s.(pc := Filling(bytes, offset, done, idx));
          if idx !in s.writeBuffers {
            s' := s'.(used := Inc16(s.used), writeBuffers := s.writeBuffers[idx := NewBuffer(c, idx)]);
          }
        }
        assert LoopHead(c, s, s');
      case Filling(bytes, offset, done, idx) =>
        s' := FillSteps(c, s);
      case Detaching(idx, cont) =>
        var b := s.writeBuffers[idx];
        s' := if s.exception then s.(pc := Broken, writeBuffers := s.writeBuffers[idx := b.(uploading := true)])
        else s.(pc := Counting(b.(uploading := true), cont), writeBuffers := s.writeBuffers - {b.partID});
        assert Detach(c, s, s');
      case Counting(b, cont) => s' := s.(pc := Spawning(b, cont), inProgress := Inc16(s.inProgress));
      case Spawning(b, cont) => s' := Resume(s.(threads := s.threads + [Thread(b, 0, Started)]), cont);
      case Flushing(todo) =>
        if todo == {} {
          s' := s.(pc := Waiting);
        } else {
          var idx :| idx in todo;
          s' := s.(pc := Detaching(idx, BackToFlush(todo - {idx})));
        }
        assert FlushNext(c, s, s');
      case Waiting => s' := s.(pc := if s.exception then Broken else Done);
    }
  }

  lemma FillSteps(c: Config, s: State) returns (s': State)
    requires Inv(c, s) && s.pc.Filling?
    ensures Fill(c, s, s')
  {
    hide Count, ServerOk, Counters, PartsInOrder, Sent, Overwrite;
    FillInBounds(c, s);
    var b := s.writeBuffers[s.pc.idx];
    var n := Min(|s.pc.bytes| - s.pc.done, c.partSize - b.filled);
    var chunk := s.pc.bytes[s.pc.done..s.pc.done + n];
    var b' := b.(data := Overwrite(b.data, b.filled, chunk), filled := b.filled + n);
    var t := s.(writeBuffers := s.writeBuffers[s.pc.idx := b'], written := s.written + chunk);
    s' := if b'.filled >= c.partSize then t.(pc := Detaching(s.pc.idx, BackToWrite(s.pc.bytes, s.pc.offset, s.pc.done, n)))
    else t.(pc := Writing(s.pc.bytes, s.pc.offset, s.pc.done + n), fileOffset := s.fileOffset + n);
  }

  ghost predicate Stuck(c: Config, s: State) {
    forall s': State :: !Next(c, s, s')
  }

  lemma NotStuck(c: Config, s: State, s': State)
    requires Next(c, s, s')
    ensures !Stuck(c, s)
  {
  }

  /** A reachable state in the middle of a call is stuck exactly when the writer is blocked, no thread runs
      any more, and failed uploads keep all slots. */
  lemma StuckIffAllLeaked(c: Config, s: State)
    requires Inv(c, s) && !AtRest(s.pc)
    ensures Stuck(c, s) <==>
            Blocked(c, s) && Count(s.threads, Running) == 0 && Count(s.threads, IsFailed) == c.maxThreads
  {
    hide *;
    CountBounds(s.threads, Running);
    if k: nat :| k < |s.threads| && Running(s.threads[k].stage) {
      var s' := RunningSteps(c, s, k);
      NextThread(c, s, s', k);
      NotStuck(c, s, s');
    } else if Blocked(c, s) {
      BlockedIffLeaked(c, s);
      BlockedStays(c, s);
      NoneInFlight(c, s);
    } else {
      WaitingIdle(c, s);
      var s' := WriterSteps(c, s);
      NextWriter(c, s, s');
      NotStuck(c, s, s');
    }
  }

  lemma NoneInFlight(c: Config, s: State)
    requires forall k: nat :: k < |s.threads| ==> !Running(s.threads[k].stage)
    ensures forall k: nat :: k < |s.threads| ==> !InFlight(s.threads[k].stage)
  {
  }

  lemma WaitingIdle(c: Config, s: State)
    requires Inv(c, s) && Count(s.threads, Running) == 0
    ensures s.pc == Waiting ==> s.inProgress == 0
  {
  }

  lemma NextThread(c: Config, s: State, s': State, k: nat)
    requires ThreadStep(c, s, s', k)
    ensures Next(c, s, s')
  {
  }

  lemma NextWriter(c: Config, s: State, s': State)
    requires WriterStep(c, s, s')
    ensures Next(c, s, s')
  {
  }

  lemma BlockedStays(c: Config, s: State)
    requires Blocked(c, s) && forall k: nat :: k < |s.threads| ==> !Running(s.threads[k].stage)
    ensures Stuck(c, s)
  {
    forall s': State
      ensures !Next(c, s, s')
    {
      if Next(c, s, s') && !WriterStep(c, s, s') {
        var k: nat :| ThreadStep(c, s, s', k);
        ThreadMoves(c, s, s', k);
        ThreadShape(c, s, s', k);
      }
    }
  }

  lemma Extend(c: Config, run: seq<State>, s: State)
    requires Run(c, run) && Next(c, run[|run| - 1], s)
    ensures Run(c, run + [s])
  {
    hide Next;
  }

  /** The first full part on its way, the writer back in its loop. */
  function FirstSent(c: Config, bytes: seq<Byte>): State
    requires |bytes| >= c.partSize
  {
    var b := Buffer(0, 0, bytes[..c.partSize], c.partSize, true);
    Init().(pc := Writing(bytes, 0, c.partSize), fileOffset := c.partSize, threads := [Thread(b, 0, Started)],
            used := 1, inProgress := 1, written := bytes[..c.partSize])
  }

  lemma SendsFirst(c: Config, bytes: seq<Byte>) returns (run: seq<State>)
    requires c.Valid() && c.partSize <= |bytes| <= MAX_PARTS * c.partSize
    ensures Run(c, run) && run[|run| - 1] == FirstSent(c, bytes)
  {
    hide Run, Next;
    var P := c.partSize;
    var s0 := Init();
    var s1 := s0.(pc := Writing(bytes, 0, 0));
    assert Begin(c, s0, s1, bytes, 0);
    var s2 := s1.(pc := Filling(bytes, 0, 0, 0), used := 1, writeBuffers := map[0 := NewBuffer(c, 0)]);
    assert 0 / P == 0;
    assert LoopHead(c, s1, s2);
    var b := Buffer(0, 0, bytes[..P], P, false);
    var back := BackToWrite(bytes, 0, 0, P);
    var s3 := s2.(writeBuffers := map[0 := b], written := bytes[..P], pc := Detaching(0, back));
    assert Overwrite(NewBuffer(c, 0).data, 0, bytes[0..P]) == bytes[..P];
    assert Fill(c, s2, s3);
    var s4 := s3.(pc := Counting(b.(uploading := true), back), writeBuffers := map[]);
    assert Detach(c, s3, s4);
    var s5 := s4.(pc := Spawning(b.(uploading := true), back), inProgress := 1);
    assert CountUpload(c, s4, s5);
    assert Spawn(c, s5, FirstSent(c, bytes));
    run := [s0];
    assert Run(c, run) by { RunOfInit(c); }
    run := WriterExtends(c, run, s1);
    run := WriterExtends(c, run, s2);
    run := WriterExtends(c, run, s3);
    run := WriterExtends(c, run, s4);
    run := WriterExtends(c, run, s5);
    run := WriterExtends(c, run, FirstSent(c, bytes));
  }

  lemma RunOfInit(c: Config)
    ensures Run(c, [Init()])
  {
  }

  lemma WriterExtends(c: Config, run: seq<State>, s: State) returns (r: seq<State>)
    requires run != [] && Run(c, run) && WriterStep(c, run[|run| - 1], s)
    ensures Run(c, r) && r != [] && r[|r| - 1] == s
  {
    r := run + [s];
    NextWriter(c, run[|run| - 1], s);
    Extend(c, run, s);
  }

  lemma ThreadExtends(c: Config, run: seq<State>, s: State, k: nat) returns (r: seq<State>)
    requires run != [] && Run(c, run) && ThreadStep(c, run[|run| - 1], s, k)
    ensures Run(c, r) && r != [] && r[|r| - 1] == s
  {
    r := run + [s];
    NextThread(c, run[|run| - 1], s, k);
    Extend(c, run, s);
  }

  /** With one slot, one failed upload of a full part leaves a longer write blocked for good. */
  lemma FailureDeadlocks(c: Config, bytes: seq<Byte>) returns (run: seq<State>)
    requires c.Valid() && c.maxThreads == 1 && c.partSize < |bytes| <= MAX_PARTS * c.partSize
    ensures Run(c, run) && run != [] && Blocked(c, run[|run| - 1]) && Stuck(c, run[|run| - 1])
  {
    hide Run, Next;
    run := SendsFirst(c, bytes);
    RunNonempty(c, run);
    var s := FirstSent(c, bytes);
    var s1 := At(s, 0, Failing);
    assert PutFails(c, s, s1, 0, false, 0);
    var s2 := At(s1, 0, Flagged).(exception := true);
    assert Advance(c, s1, s2, 0);
    var s3 := At(s2, 0, Failed).(inProgress := 0);
    assert Advance(c, s2, s3, 0);
    run := ThreadExtends(c, run, s1, 0);
    run := ThreadExtends(c, run, s2, 0);
    run := ThreadExtends(c, run, s3, 0);
    BlockedStays(c, s3);
  }

  lemma RunNonempty(c: Config, run: seq<State>)
    requires Run(c, run)
    ensures run != []
  {
  }
}
