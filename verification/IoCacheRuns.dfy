/**
 Whole sessions with the file cache, against the plain stream they stand for.
 */
module IoCacheRuns {
  import opened ByteOrder
  import opened IoCache

  // ---------------------------------------------------------------- reading sessions

  datatype Request = ReadBytes(count: nat) | GetByte

  /** What the caller gets: whether the call succeeded, and the bytes of the file it was given. */
  datatype Answer = Answer(ok: bool, data: seq<byte>)

  function Size(r: Request): nat {
    if r.GetByte? then 1 else r.count
  }

  /** The plain stream: where the requests leave it. Each takes the next bytes, as many as there are. */
  function End(file: seq<byte>, pos: nat, rs: seq<Request>): (end: nat)
    requires pos <= |file|
    ensures pos <= end <= |file|
  {
    if rs == [] then pos
    else
      var p := End(file, pos, rs[..|rs| - 1]);
      p + Min(Size(rs[|rs| - 1]), |file| - p)
  }

  /** The answer of the plain stream at position `p`. */
  function Next(file: seq<byte>, p: nat, r: Request): Answer
    requires p <= |file|
  {
    var n := Min(Size(r), |file| - p);
    Answer(n == Size(r), file[p..p + n])
  }

  function Plain(file: seq<byte>, pos: nat, rs: seq<Request>): seq<Answer>
    requires pos <= |file|
  {
    if rs == [] then []
    else
      var front := rs[..|rs| - 1];
      Plain(file, pos, front) + [Next(file, End(file, pos, front), rs[|rs| - 1])]
  }

  function Delivered(answers: seq<Answer>): seq<byte> {
    if answers == [] then [] else Delivered(answers[..|answers| - 1]) + answers[|answers| - 1].data
  }

  lemma DeliveredSnoc(answers: seq<Answer>, a: Answer)
    ensures Delivered(answers + [a]) == Delivered(answers) + a.data
  {
    assert (answers + [a])[..|answers|] == answers;
  }

  lemma NextPiece(file: seq<byte>, a: nat, b: nat, c: nat)
    requires a <= b <= c <= |file|
    ensures file[a..b] + file[b..c] == file[a..c]
  {
  }

  /** Whatever is asked for, the bytes delivered are the consecutive bytes of the file from the start to
      where the requests leave it. */
  lemma {:induction false} PlainIsConsecutive(file: seq<byte>, pos: nat, rs: seq<Request>)
    requires pos <= |file|
    ensures Delivered(Plain(file, pos, rs)) == file[pos..End(file, pos, rs)]
    decreases |rs|
  {
    if rs != [] {
      var front := rs[..|rs| - 1];
      PlainIsConsecutive(file, pos, front);
      DeliveredSnoc(Plain(file, pos, front), Next(file, End(file, pos, front), rs[|rs| - 1]));
      NextPiece(file, pos, End(file, pos, front), End(file, pos, rs));
    }
  }

  /** One request, through the cache; `hard` says that it failed hard, with nothing given. That happens if
      and only if the buffer does not suffice and the disk refuses. */
  method Serve(c: Cache, r: Request) returns (hard: bool, a: Answer)
    requires c.Readable()
    modifies c, c.memory
    ensures c.Readable() && c.file == old(c.file)
    ensures c.accesses == old(c.accesses) + (if Size(r) <= old(c.BytesInCache()) then 0 else 1)
    ensures hard == !Granted(c.refuses, old(c.accesses), c.accesses)
    ensures hard ==> a == Answer(false, []) && c.Tell() == old(c.Tell())
    ensures !hard ==> a == Next(c.file, old(c.Tell()), r) && c.Tell() == old(c.Tell()) + |a.data|
  {
    match r
    case ReadBytes(count) => hard, a := ServeRead(c, count);
    case GetByte => hard, a := ServeGet(c);
  }

  method ServeRead(c: Cache, count: nat) returns (hard: bool, a: Answer)
    requires c.Readable()
    modifies c, c.memory
    ensures c.Readable() && c.file == old(c.file)
    ensures c.accesses == old(c.accesses) + (if count <= old(c.BytesInCache()) then 0 else 1)
    ensures hard == !Granted(c.refuses, old(c.accesses), c.accesses)
    ensures hard ==> a == Answer(false, []) && c.Tell() == old(c.Tell())
    ensures !hard ==> a == Next(c.file, old(c.Tell()), ReadBytes(count)) && c.Tell() == old(c.Tell()) + |a.data|
  {
    var dest := new byte[count];
    var status := c.Read(dest, count);
    hard := status != 0 && c.error == -1;
    if hard {
      a := Answer(false, []);
    } else {
      var n := if status == 0 then count else c.error;
      a := Answer(status == 0, dest[..n]);
      assert dest[..n] == c.file[old(c.Tell())..old(c.Tell()) + n];
    }
  }

  method ServeGet(c: Cache) returns (hard: bool, a: Answer)
    requires c.Readable()
    modifies c, c.memory
    ensures c.Readable() && c.file == old(c.file)
    ensures c.accesses == old(c.accesses) + (if 1 <= old(c.BytesInCache()) then 0 else 1)
    ensures hard == !Granted(c.refuses, old(c.accesses), c.accesses)
    ensures hard ==> a == Answer(false, []) && c.Tell() == old(c.Tell())
    ensures !hard ==> a == Next(c.file, old(c.Tell()), GetByte) && c.Tell() == old(c.Tell()) + |a.data|
  {
    ghost var start := c.Tell();
    var x := c.Get();
    if x == EOF {
      hard, a := c.error == -1, Answer(false, []);
    } else {
      hard, a := false, Answer(true, [x]);
      assert c.file[start..start + 1] == [x];
    }
  }

  /** The requests that did not fail hard. */
  function Served(rs: seq<Request>, hard: seq<bool>): seq<Request>
    requires |hard| == |rs|
  {
    if rs == [] then []
    else
      var n := |rs| - 1;
      Served(rs[..n], hard[..n]) + if hard[n] then [] else [rs[n]]
  }

  /** How many of the accesses from `first` to before `end` are refused. */
  function Refusals(refuses: nat -> bool, first: nat, end: nat): nat {
    if end <= first then 0 else Refusals(refuses, first, end - 1) + if refuses(end - 1) then 1 else 0
  }

  lemma {:induction false} NoRefusals(refuses: nat -> bool, first: nat, end: nat)
    ensures Refusals(refuses, first, end) == 0 <==> Granted(refuses, first, end)
  {
    if first < end {
      NoRefusals(refuses, first, end - 1);
    }
  }

  lemma RefusalsOn(refuses: nat -> bool, first: nat, middle: nat, end: nat, hard: seq<bool>, h: bool)
    requires first <= middle <= end <= middle + 1 && h == !Granted(refuses, middle, end)
    requires multiset(hard)[true] == Refusals(refuses, first, middle)
    ensures multiset(hard + [h])[true] == Refusals(refuses, first, end)
  {
    assert end == middle + 1 ==> h == refuses(middle);
  }

  /** A session has served `rs`, with accesses numbered `first` to before `end`, from position `start` to
      `tell`: the requests that did not fail hard got exactly what the plain stream gives them, failed ones
      cost nothing, and as many failed as the disk refused accesses. */
  ghost predicate Session(refuses: nat -> bool, first: nat, end: nat, file: seq<byte>, start: int, tell: int,
                          rs: seq<Request>, hard: seq<bool>, answers: seq<Answer>)
  {
    && 0 <= start <= |file| && |hard| == |rs| && first <= end <= first + |rs|
    && answers == Plain(file, start, Served(rs, hard)) && tell == End(file, start, Served(rs, hard))
    && multiset(hard)[true] == Refusals(refuses, first, end)
  }

  lemma SessionOn(refuses: nat -> bool, first: nat, middle: nat, end: nat, file: seq<byte>, start: int, tell: int,
                  rs: seq<Request>, hard: seq<bool>, answers: seq<Answer>, r: Request, h: bool, a: Answer)
    requires Session(refuses, first, middle, file, start, tell, rs, hard, answers)
    requires 0 <= tell <= |file| && middle <= end <= middle + 1 && h == !Granted(refuses, middle, end)
    requires !h ==> a == Next(file, tell, r)
    ensures Session(refuses, first, end, file, start, if h then tell else tell + |a.data|,
                    rs + [r], hard + [h], if h then answers else answers + [a])
  {
    RefusalsOn(refuses, first, middle, end, hard, h);
    ServedSnoc(rs, hard, r, h);
    var served := Served(rs, hard);
    if h {
      assert Served(rs + [r], hard + [h]) == served;
    } else {
      assert Served(rs + [r], hard + [h]) == served + [r];
      PlainSnoc(file, start, served, r);
    }
  }

  lemma SessionNext(refuses: nat -> bool, first: nat, middle: nat, end: nat, file: seq<byte>, start: int, tell: int,
                    rs: seq<Request>, i: nat, hard: seq<bool>, answers: seq<Answer>, h: bool, a: Answer)
    requires i < |rs| && Session(refuses, first, middle, file, start, tell, rs[..i], hard, answers)
    requires 0 <= tell <= |file| && middle <= end <= middle + 1 && h == !Granted(refuses, middle, end)
    requires !h ==> a == Next(file, tell, rs[i])
    ensures Session(refuses, first, end, file, start, if h then tell else tell + |a.data|,
                    rs[..i + 1], hard + [h], if h then answers else answers + [a])
  {
    SessionOn(refuses, first, middle, end, file, start, tell, rs[..i], hard, answers, rs[i], h, a);
    assert rs[..i + 1] == rs[..i] + [rs[i]];
  }

  /** What a session means: consecutive bytes are delivered, the position is the start plus their number,
      and if the disk granted every access all requests got what the plain stream gives. */
  lemma SessionMeans(refuses: nat -> bool, first: nat, end: nat, file: seq<byte>, start: int, tell: int,
                     rs: seq<Request>, hard: seq<bool>, answers: seq<Answer>)
    requires Session(refuses, first, end, file, start, tell, rs, hard, answers)
    ensures start <= tell <= |file| && Delivered(answers) == file[start..tell]
    ensures true !in hard <==> Granted(refuses, first, end)
    ensures true !in hard ==> answers == Plain(file, start, rs)
  {
    PlainIsConsecutive(file, start, Served(rs, hard));
    NoRefusals(refuses, first, end);
    if true !in hard {
      AllServed(rs, hard);
    }
  }

  /** Every reading session, with any counts in any order and any buffer size: if and only if the disk
      grants every access, no request fails, and then all get exactly what the plain stream gives. In any
      case those that do not fail hard do, and the bytes delivered are consecutive. A session turns to the
      disk at most once per request. */
  method ReadSession(c: Cache, rs: seq<Request>) returns (answers: seq<Answer>, hard: seq<bool>)
    requires c.Readable()
    modifies c, c.memory
    ensures c.Readable() && c.file == old(c.file)
    ensures Session(c.refuses, old(c.accesses), c.accesses, c.file, old(c.Tell()), c.Tell(), rs, hard, answers)
    ensures 0 <= old(c.Tell()) <= c.Tell() <= |c.file| && Delivered(answers) == c.file[old(c.Tell())..c.Tell()]
    ensures true !in hard <==> Granted(c.refuses, old(c.accesses), c.accesses)
    ensures true !in hard ==> answers == Plain(c.file, old(c.Tell()), rs)
  {
    answers, hard := [], [];
    ghost var file, start, first := c.file, c.Tell(), c.accesses;
    for i := 0 to |rs|
      invariant c.Readable() && c.file == file
      invariant Session(c.refuses, first, c.accesses, file, start, c.Tell(), rs[..i], hard, answers)
    {
      ghost var tell, middle := c.Tell(), c.accesses;
      var h, a := Serve(c, rs[i]);
      SessionNext(c.refuses, first, middle, c.accesses, file, start, tell, rs, i, hard, answers, h, a);
      hard := hard + [h];
      if !h {
        answers := answers + [a];
      }
    }
    assert rs[..|rs|] == rs;
    SessionMeans(c.refuses, first, c.accesses, file, start, c.Tell(), rs, hard, answers);
  }

  lemma GrantedOn(refuses: nat -> bool, a: nat, b: nat, c: nat)
    requires a <= b <= c
    ensures Granted(refuses, a, c) <==> Granted(refuses, a, b) && Granted(refuses, b, c)
  {
  }

  lemma ServedSnoc(rs: seq<Request>, hard: seq<bool>, r: Request, h: bool)
    requires |hard| == |rs|
    ensures Served(rs + [r], hard + [h]) == Served(rs, hard) + if h then [] else [r]
  {
    assert (rs + [r])[..|rs|] == rs && (hard + [h])[..|rs|] == hard;
  }

  lemma PlainSnoc(file: seq<byte>, pos: nat, rs: seq<Request>, r: Request)
    requires pos <= |file|
    ensures var end := End(file, pos, rs);
            && Plain(file, pos, rs + [r]) == Plain(file, pos, rs) + [Next(file, end, r)]
            && End(file, pos, rs + [r]) == end + |Next(file, end, r).data|
  {
    assert (rs + [r])[..|rs|] == rs;
  }

  /** What is in the buffer, which callers of fill read in place. */
  method Unread(c: Cache) returns (piece: seq<byte>)
    requires c.Readable()
    ensures |piece| == c.readEnd - c.readPos && 0 <= c.Tell() && c.Tell() + |piece| <= |c.file|
    ensures piece == c.file[c.Tell()..c.Tell() + |piece|]
  {
    piece := c.memory[c.readPos..c.readEnd];
    c.Ahead(c.readEnd - c.readPos);
  }

  /** Read the buffer in place, then fill. */
  method UseAndFill(c: Cache) returns (piece: seq<byte>, n: int)
    requires c.Readable()
    modifies c, c.memory
    ensures c.Readable() && c.file == old(c.file) && c.accesses == old(c.accesses) + 1
    ensures |piece| == old(c.BytesInCache()) && old(c.Tell()) + |piece| == c.Tell() <= |c.file|
    ensures 0 <= old(c.Tell()) && piece == c.file[old(c.Tell())..c.Tell()] && n == c.BytesInCache()
    ensures n == if c.refuses(old(c.accesses)) then 0 else Min(c.size, |c.file| - c.Tell())
  {
    piece := Unread(c);
    n := c.Fill();
  }

  /** How far from the start `fills` granted fills get, with a buffer of `size` bytes. */
  function Visited(remaining: nat, buffered: nat, size: nat, fills: nat): (n: nat)
    requires buffered <= remaining
    ensures n <= remaining
  {
    if fills == 0 then buffered
    else
      var n := Visited(remaining, buffered, size, fills - 1);
      n + Min(size, remaining - n)
  }

  /** After `fills` granted fills: the bytes visited, and what the last fill returned. */
  ghost predicate Filling(refuses: nat -> bool, first: nat, file: seq<byte>, start: nat, had: nat, size: nat,
                          fills: nat, out: seq<byte>, n: int)
  {
    && start + had <= |file| && Granted(refuses, first, first + fills)
    && var pos := start + Visited(|file| - start, had, size, fills);
       out == file[start..pos] && n == if refuses(first + fills) then 0 else Min(size, |file| - pos)
  }

  lemma FillOn(refuses: nat -> bool, first: nat, file: seq<byte>, start: nat, had: nat, size: nat,
               fills: nat, out: seq<byte>, n: int, end: nat, piece: seq<byte>, n': int)
    requires Filling(refuses, first, file, start, had, size, fills, out, n) && n != 0
    requires start + |out| + n == end <= |file| && piece == file[start + |out|..end]
    requires n' == if refuses(first + fills + 1) then 0 else Min(size, |file| - end)
    ensures Filling(refuses, first, file, start, had, size, fills + 1, out + piece, n')
  {
    NextPiece(file, start, start + |out|, end);
  }

  /** What the accesses from `first` to before `end` get of the file from `start` on, `had` bytes of it
      being in the buffer at first: all fills but the last were granted, each brought the next bytes, and
      unless the last was refused nothing is left. */
  ghost predicate Filled(refuses: nat -> bool, first: nat, end: nat, file: seq<byte>, start: int, had: int, size: nat,
                         out: seq<byte>)
  {
    && first < end && Granted(refuses, first, end - 1) && 0 <= start && 0 <= had && start + had <= |file|
    && out == file[start..start + Visited(|file| - start, had, size, end - 1 - first)]
    && (size > 0 && !refuses(end - 1) ==> out == file[start..])
  }

  lemma FillEnds(refuses: nat -> bool, first: nat, file: seq<byte>, start: nat, had: nat, size: nat,
                 fills: nat, end: nat, out: seq<byte>)
    requires Filling(refuses, first, file, start, had, size, fills, out, 0) && end == first + fills + 1
    ensures Filled(refuses, first, end, file, start, had, size, out)
  {
  }

  /** Taking the buffer as it is and calling fill until it returns zero visits consecutive bytes of the
      file, each exactly once. It goes on until the disk refuses a fill or everything that remained has been
      visited; a cache without a buffer yields nothing. */
  method ReadByFilling(c: Cache) returns (out: seq<byte>)
    requires c.Readable()
    modifies c, c.memory
    ensures c.Readable() && c.file == old(c.file)
    ensures Filled(c.refuses, old(c.accesses), c.accesses, c.file, old(c.Tell()), old(c.BytesInCache()), c.size, out)
  {
    ghost var start, first, had := c.Tell(), c.accesses, c.BytesInCache();
    var n;
    out, n := UseAndFill(c);
    ghost var fills: nat := 0;
    while n != 0
      invariant InFilling(c, old(c.file), start, first, had, fills, out, n)
      decreases |old(c.file)| - start - |out|
    {
      out, n := VisitAndFill(c, start, first, had, fills, out, n);
      fills := fills + 1;
    }
    FillEnds(c.refuses, first, c.file, start, had, c.size, fills, c.accesses, out);
  }

  ghost predicate InFilling(c: Cache, file: seq<byte>, start: int, first: nat, had: int, fills: nat, out: seq<byte>,
                            n: int)
    reads c, c.memory
  {
    && c.Readable() && c.file == file && 0 <= start && 0 <= had && c.accesses == first + fills + 1
    && Filling(c.refuses, first, file, start, had, c.size, fills, out, n)
    && c.Tell() == start + |out| && n == c.BytesInCache()
  }

  method VisitAndFill(c: Cache, ghost start: int, ghost first: nat, ghost had: int, ghost fills: nat,
                      out: seq<byte>, n: int)
    returns (more: seq<byte>, n': int)
    requires InFilling(c, c.file, start, first, had, fills, out, n) && n != 0
    modifies c, c.memory
    ensures InFilling(c, old(c.file), start, first, had, fills + 1, more, n') && |more| > |out|
  {
    var piece;
    piece, n' := UseAndFill(c);
    FillOn(c.refuses, first, c.file, start, had, c.size, fills, out, n, c.Tell(), piece, n');
    more := out + piece;
  }

  // ---------------------------------------------------------------- writing sessions

  datatype Command = WriteBytes(data: seq<byte>) | PutByte(b: byte) | FlushNow

  function Payload(cmd: Command): seq<byte> {
    match cmd
    case WriteBytes(data) => data
    case PutByte(b) => [b]
    case FlushNow => []
  }

  function AllBytes(cmds: seq<Command>): seq<byte> {
    if cmds == [] then [] else AllBytes(cmds[..|cmds| - 1]) + Payload(cmds[|cmds| - 1])
  }

  method Perform(c: Cache, cmd: Command) returns (status: int)
    requires c.Writable() && c.size > 0
    modifies c, c.memory
    ensures c.Writable() && c.Answers(old(c.accesses), status) && c.accesses <= old(c.accesses) + 2
    ensures status == 0 ==> c.Contents() == old(c.Contents()) + Payload(cmd)
    ensures old(c.Contents()) <= c.Contents() <= old(c.Contents()) + Payload(cmd)
  {
    match cmd
    case WriteBytes(data) =>
      var src := new byte[|data|](i requires 0 <= i < |data| => data[i]);
      assert src[..|data|] == data;
      status := c.Write(src, |data|);
    case PutByte(b) =>
      status := c.WriteByte(b);
    case FlushNow =>
      status := c.Flush();
  }

  /** The stream after the first `done` commands, and part of the next one if that failed. */
  predicate WroteUpTo(cmds: seq<Command>, done: nat, before: seq<byte>, after: seq<byte>) {
    && done <= |cmds|
    && (done == |cmds| ==> after == before + AllBytes(cmds))
    && (done < |cmds| ==> before + AllBytes(cmds[..done]) <= after <= before + AllBytes(cmds[..done + 1]))
  }

  /** Every writing session: the file followed by the pending buffer is what was there before followed
      by all bytes written, in order, up to the first call that failed. All calls succeed if and only if the
      disk grants every access, of which there are at most two per call; the session ends with the first
      that it refuses. */
  method WriteSession(c: Cache, cmds: seq<Command>) returns (done: nat)
    requires c.Writable() && c.size > 0
    modifies c, c.memory
    ensures c.Writable() && WroteUpTo(cmds, done, old(c.Contents()), c.Contents())
    ensures c.Answers(old(c.accesses), if done == |cmds| then 0 else 1)
    ensures c.accesses <= old(c.accesses) + 2 * |cmds|
  {
    done := 0;
    ghost var before, first := c.Contents(), c.accesses;
    while done < |cmds|
      invariant c.Writable() && done <= |cmds|
      invariant c.Contents() == before + AllBytes(cmds[..done])
      invariant c.Answers(first, 0) && c.accesses <= first + 2 * done
    {
      ghost var mid, middle := c.Contents(), c.accesses;
      var status := Perform(c, cmds[done]);
      AnswersOn(c, first, middle, status);
      OneCommandOn(cmds, done, before, mid, c.Contents(), status);
      if status != 0 {
        return;
      }
      done := done + 1;
    }
    assert cmds[..done] == cmds;
  }

  lemma AnswersOn(c: Cache, first: nat, middle: nat, status: int)
    requires first <= middle && Granted(c.refuses, first, middle) && c.Answers(middle, status)
    ensures c.Answers(first, status)
  {
    GrantedOn(c.refuses, first, middle, c.accesses);
    if status != 0 {
      GrantedOn(c.refuses, first, middle, c.accesses - 1);
    }
  }

  lemma OneCommandOn(cmds: seq<Command>, n: nat, before: seq<byte>, mid: seq<byte>, after: seq<byte>, status: int)
    requires n < |cmds| && mid == before + AllBytes(cmds[..n])
    requires mid <= after <= mid + Payload(cmds[n]) && (status == 0 ==> after == mid + Payload(cmds[n]))
    ensures before + AllBytes(cmds[..n]) <= after <= before + AllBytes(cmds[..n + 1])
    ensures status == 0 ==> after == before + AllBytes(cmds[..n + 1])
  {
    assert cmds[..n + 1][..n] == cmds[..n];
    assert mid + Payload(cmds[n]) == before + AllBytes(cmds[..n + 1]);
  }

  // ---------------------------------------------------------------- end to end

  method WriteAndFlush(cmds: seq<Command>, size: nat, disk: nat -> bool) returns (ok: bool, file: seq<byte>)
    requires size > 0
    ensures ok ==> file == AllBytes(cmds)
    ensures Granted(disk, 0, 2 * |cmds| + 1) ==> ok
  {
    var w := new Cache(WriteCache, [], 0, 0, size, disk);
    var done := WriteSession(w, cmds);
    WroteAll(cmds, done, w.Contents());
    GrantedPart(disk, w.accesses, 2 * |cmds| + 1);
    var status := w.Flush();
    ok, file := done == |cmds| && status == 0, w.file;
  }

  lemma WroteAll(cmds: seq<Command>, done: nat, after: seq<byte>)
    requires WroteUpTo(cmds, done, [], after)
    ensures done == |cmds| ==> after == AllBytes(cmds)
  {
    assert [] + AllBytes(cmds) == AllBytes(cmds);
  }

  lemma GrantedPart(disk: nat -> bool, m: nat, n: nat)
    requires m < n
    ensures Granted(disk, 0, n) ==> Granted(disk, 0, m) && !disk(m)
  {
  }

  method ReadFrom(file: seq<byte>, rs: seq<Request>, size: nat, disk: nat -> bool)
    returns (ok: bool, answers: seq<Answer>)
    ensures ok ==> answers == Plain(file, 0, rs)
    ensures Granted(disk, 0, |rs|) ==> ok
  {
    var r := new Cache(ReadCache, file, 0, 0, size, disk);
    var hard;
    answers, hard := ReadSession(r, rs);
    ok := true !in hard;
  }

  /** What one cache has written and flushed, another one reads back, whatever the two buffer sizes and
      however the calls on either side are cut. It succeeds on disks that grant as many accesses as the
      calls can need. */
  method WriteThenRead(cmds: seq<Command>, writeSize: nat, writeDisk: nat -> bool,
                       rs: seq<Request>, readSize: nat, readDisk: nat -> bool)
    returns (ok: bool, answers: seq<Answer>)
    requires writeSize > 0
    ensures ok ==> answers == Plain(AllBytes(cmds), 0, rs)
    ensures Granted(writeDisk, 0, 2 * |cmds| + 1) && Granted(readDisk, 0, |rs|) ==> ok
  {
    var file;
    ok, file := WriteAndFlush(cmds, writeSize, writeDisk);
    answers := [];
    if ok {
      ok, answers := ReadFrom(file, rs, readSize, readDisk);
    }
  }

  lemma {:induction false} AllServed(rs: seq<Request>, hard: seq<bool>)
    requires |hard| == |rs| && true !in hard
    ensures Served(rs, hard) == rs
  {
    if rs != [] {
      AllServed(rs[..|rs| - 1], hard[..|rs| - 1]);
    }
  }
}
