/** `DataReader::read` and its callers: `dd` and `cp` copy a file block by block until it ends or 0x03 is typed. */
module BlockCopy {
  import opened Ascii
  import opened Extremes
  import opened Xcore
  import opened DataNode

  const RX_BUFFER := 16

  /** The bytes typed before each poll, and whether an allocation in each block's write succeeds. */
  datatype Surroundings = Surroundings(typed: nat -> string, memory: nat -> bool)

  // ---------------------------------------------------------------------------------------------
  // The copy as a function

  /** What stays the same during a copy. */
  datatype Job = Job(sourceLength: nat, readable: bool, writable: bool, block: nat)

  datatype Ending = Ending(res: Result, copied: nat)

  /** One turn of the loop: the last one, with its result, or one that copies some bytes. */
  datatype Turn = Last(res: Result) | Next(n: nat)

  /** The turn at the k-th poll, from a source position to a position in a destination of known sizes. */
  function OneTurn(j: Job, w: Surroundings, pos: nat, out: nat, k: nat, s: Sizes): (t: Turn)
    ensures t.Next? ==> pos < j.sourceLength && 0 < t.n == Min(j.sourceLength - pos, j.block) <= j.sourceLength - pos
  {
    if ETX in w.typed(k) then Last(E_TIMEOUT) else OneTransfer(j, pos, out, s, w.memory(k))
  }

  /** The block read and written in a turn. */
  function OneTransfer(j: Job, pos: nat, out: nat, s: Sizes, memory: bool): (t: Turn)
    ensures t.Next? ==> pos < j.sourceLength && 0 < t.n == Min(j.sourceLength - pos, j.block) <= j.sourceLength - pos
  {
    if !j.readable then Last(E_ACCESS)
    else if pos > j.sourceLength then Last(E_VALUE)
    else
      var chunk := Min(j.sourceLength - pos, j.block);
      if chunk == 0 then Last(E_OK)
      else if !j.writable then Last(E_ACCESS)
      else if out + chunk > s.capacity && !memory then Last(E_MEMORY)
      else Next(chunk)
  }

  function OneLess(left: int): int {
    if left > 0 then left - 1 else left
  }

  /** How a copy ends, with some number of blocks left (-1 without a limit). */
  function Plan(j: Job, w: Surroundings, pos: nat, out: nat, left: int, k: nat, s: Sizes): Ending
    decreases if pos <= j.sourceLength then j.sourceLength - pos else 0
  {
    if left == 0 then Ending(E_OK, 0)
    else
      match OneTurn(j, w, pos, out, k, s)
      case Last(res) => Ending(res, 0)
      case Next(n) =>
        var rest := Plan(j, w, pos + n, out + n, OneLess(left), k + 1, WriteSizes(s, out + n, w.memory(k)));
        Ending(rest.res, n + rest.copied)
  }

  /** Where a copy is: its positions, the blocks left, the polls so far, the sizes of the destination. */
  datatype Point = Point(pos: nat, out: nat, left: int, k: nat, s: Sizes)

  /** A copy that ends as e has copied some bytes so far, and this is how it goes on. */
  ghost predicate OnCourse(e: Ending, copied: nat, j: Job, w: Surroundings, p: Point)
  {
    var rest := Plan(j, w, p.pos, p.out, p.left, p.k, p.s);
    e == Ending(rest.res, copied + rest.copied)
  }

  /** The point after a turn that copies n bytes. */
  function NextPoint(p: Point, n: nat, w: Surroundings): Point {
    Point(p.pos + n, p.out + n, OneLess(p.left), p.k + 1, WriteSizes(p.s, p.out + n, w.memory(p.k)))
  }

  lemma OnCourseNext(e: Ending, copied: nat, j: Job, w: Surroundings, p: Point, n: nat)
    requires OnCourse(e, copied, j, w, p) && p.left != 0 && OneTurn(j, w, p.pos, p.out, p.k, p.s) == Next(n)
    ensures OnCourse(e, copied + n, j, w, NextPoint(p, n, w))
  {
  }

  lemma OnCourseLast(e: Ending, copied: nat, j: Job, w: Surroundings, p: Point, res: Result)
    requires OnCourse(e, copied, j, w, p)
    requires if p.left == 0 then res == E_OK else OneTurn(j, w, p.pos, p.out, p.k, p.s) == Last(res)
    ensures e == Ending(res, copied)
  {
  }

  /** The bytes between a position and the end of the source, or of the given number of blocks. */
  function Wanted(j: Job, pos: nat, left: int): nat {
    if pos > j.sourceLength || j.block == 0 then 0
    else if left < 0 then j.sourceLength - pos else Min(j.sourceLength - pos, left * j.block)
  }

  /** What is wanted ends within the greatest size of a file. */
  predicate Within(j: Job, p: Point) {
    var wanted := Wanted(j, p.pos, p.left);
    wanted > 0 ==> p.out + wanted <= MAX_END
  }

  /** The bytes that remain wanted after a whole block. */
  lemma WantedAfterBlock(j: Job, pos: nat, left: int)
    requires pos < j.sourceLength && j.block > 0 && left != 0
    ensures var chunk := Min(j.sourceLength - pos, j.block);
            0 < chunk <= Wanted(j, pos, left)
            && Wanted(j, pos + chunk, OneLess(left)) == Wanted(j, pos, left) - chunk
  {
    if left > 0 {
      assert (left - 1) * j.block == left * j.block - j.block;
    }
  }

  ghost predicate Quiet(w: Surroundings, k: nat) {
    ETX !in w.typed(k) && w.memory(k)
  }

  /** A copy that nothing stops ends well and copies every byte that is wanted. */
  lemma {:induction false} UninterruptedCopy(j: Job, w: Surroundings, pos: nat, out: nat, left: int, k: nat, s: Sizes)
    requires j.readable && j.writable && j.block > 0 && pos <= j.sourceLength
    requires forall i | k <= i :: Quiet(w, i)
    ensures Plan(j, w, pos, out, left, k, s) == Ending(E_OK, Wanted(j, pos, left))
    decreases j.sourceLength - pos
  {
    assert Quiet(w, k);
    if left != 0 && pos < j.sourceLength {
      WantedAfterBlock(j, pos, left);
      var chunk := Min(j.sourceLength - pos, j.block);
      UninterruptedCopy(j, w, pos + chunk, out + chunk, OneLess(left), k + 1,
                        WriteSizes(s, out + chunk, w.memory(k)));
    }
  }

  /** How a copy that ended after some blocks ended; `whole` is the size of that many blocks. */
  ghost predicate EndsAfter(e: Ending, w: Surroundings, k: nat, blocks: nat, whole: nat, wanted: nat) {
    && e.copied == Min(whole, wanted)
    && (forall i | k <= i < k + blocks :: ETX !in w.typed(i))
    && match e.res
       case E_OK => e.copied == wanted
       case E_TIMEOUT => ETX in w.typed(k + blocks)
       case E_MEMORY => ETX !in w.typed(k + blocks) && !w.memory(k + blocks) && whole < wanted
       case _ => false
  }

  lemma OneBlockMore(rest: Ending, w: Surroundings, k: nat, blocks: nat, block: nat, chunk: nat, remaining: nat,
      wanted: nat)
    requires ETX !in w.typed(k) && chunk == Min(remaining, block) <= wanted <= remaining
    requires EndsAfter(rest, w, k + 1, blocks, blocks * block, wanted - chunk)
    ensures EndsAfter(Ending(rest.res, chunk + rest.copied), w, k, blocks + 1, (blocks + 1) * block, wanted)
  {
    assert (blocks + 1) * block == blocks * block + block;
  }

  /**
   However a copy ends, it has copied whole blocks up to there, or all that was wanted: 0x03 had not been typed before,
   it was typed at the next poll when the copy timed out, and the next block did not fit when memory ran out.
   */
  lemma {:induction false} CopyEndsAfterBlocks(j: Job, w: Surroundings, pos: nat, out: nat, left: int, k: nat, s: Sizes)
    returns (blocks: nat)
    requires j.readable && j.writable && j.block > 0 && pos <= j.sourceLength
    ensures EndsAfter(Plan(j, w, pos, out, left, k, s), w, k, blocks, blocks * j.block, Wanted(j, pos, left))
    decreases j.sourceLength - pos
  {
    var turn := OneTurn(j, w, pos, out, k, s);
    if left == 0 || turn.Last? {
      blocks := 0;
      EndsAtOnce(j, w, pos, out, left, k, s);
    } else {
      var n, after := turn.n, WriteSizes(s, out + turn.n, w.memory(k));
      WantedAfterBlock(j, pos, left);
      var before := CopyEndsAfterBlocks(j, w, pos + n, out + n, OneLess(left), k + 1, after);
      EndsLater(j, w, pos, out, left, k, s, n, before);
      blocks := before + 1;
    }
  }

  lemma EndsLater(j: Job, w: Surroundings, pos: nat, out: nat, left: int, k: nat, s: Sizes, n: nat, blocks: nat)
    requires j.block > 0 && pos + n <= j.sourceLength && left != 0 && OneTurn(j, w, pos, out, k, s) == Next(n)
    requires EndsAfter(Plan(j, w, pos + n, out + n, OneLess(left), k + 1, WriteSizes(s, out + n, w.memory(k))),
                       w, k + 1, blocks, blocks * j.block, Wanted(j, pos + n, OneLess(left)))
    ensures EndsAfter(Plan(j, w, pos, out, left, k, s), w, k, blocks + 1, (blocks + 1) * j.block, Wanted(j, pos, left))
  {
    var rest := Plan(j, w, pos + n, out + n, OneLess(left), k + 1, WriteSizes(s, out + n, w.memory(k)));
    WantedAfterBlock(j, pos, left);
    OneBlockMore(rest, w, k, blocks, j.block, n, j.sourceLength - pos, Wanted(j, pos, left));
  }

  lemma EndsAtOnce(j: Job, w: Surroundings, pos: nat, out: nat, left: int, k: nat, s: Sizes)
    requires j.readable && j.writable && j.block > 0 && pos <= j.sourceLength
    requires left == 0 || OneTurn(j, w, pos, out, k, s).Last?
    ensures EndsAfter(Plan(j, w, pos, out, left, k, s), w, k, 0, 0, Wanted(j, pos, left))
  {
    if left > 0 {
      assert left * j.block >= 1;
    }
  }

  // ---------------------------------------------------------------------------------------------
  // The destination

  /** n bytes of the source, from one position, laid over the old destination at another. */
  ghost predicate Copied(before: string, source: string, from: nat, to: nat, n: nat, after: string)
    requires from + n <= |source| || n == 0
  {
    && |after| == (if n > 0 then Max(|before|, to + n) else |before|)
    && (forall i | to <= i < to + n :: after[i] == source[from + (i - to)])
    && (forall i | 0 <= i < |before| && !(to <= i < to + n) :: after[i] == before[i])
  }

  lemma CopiedMore(before: string, source: string, from: nat, to: nat, n: nat, middle: string, m: nat, after: string)
    requires from + n + m <= |source| && m > 0
    requires Copied(before, source, from, to, n, middle)
    requires Copied(middle, source, from + n, to + n, m, after)
    ensures Copied(before, source, from, to, n + m, after)
  {
    forall i | to <= i < to + n + m
      ensures after[i] == source[from + (i - to)]
    {
      if i < to + n {
        assert after[i] == middle[i];
      }
    }
  }

  lemma BlockOfSource(before: string, source: string, from: nat, to: nat, bytes: string, after: string)
    requires from + |bytes| <= |source| && bytes == source[from..from + |bytes|]
    requires Copied(before, bytes, 0, to, |bytes|, after)
    ensures Copied(before, source, from, to, |bytes|, after)
  {
  }

  /** What is fixed about one copy: its job and positions, and the contents it started from. */
  datatype Course = Course(j: Job, start: nat, out: nat, source: string, before: string)

  lemma NextFits(j: Job, p: Point)
    requires Within(j, p) && p.left != 0
    ensures p.pos < j.sourceLength && j.block > 0 ==> p.out + Min(j.sourceLength - p.pos, j.block) <= MAX_END
  {
    if p.pos < j.sourceLength && j.block > 0 {
      WantedAfterBlock(j, p.pos, p.left);
    }
  }

  /** A turn that was the last one ends the copy as planned, and after another one the copy is still on course. */
  lemma AfterTurn(e: Ending, copied: nat, c: Course, w: Surroundings, p: Point, res: Result, n: nat)
    returns (next: Point)
    requires OnCourse(e, copied, c.j, w, p) && Within(c.j, p) && p.left != 0
    requires OneTurn(c.j, w, p.pos, p.out, p.k, p.s) == if n == 0 then Last(res) else Next(n)
    ensures if n == 0 then e == Ending(res, copied)
            else next == NextPoint(p, n, w) && OnCourse(e, copied + n, c.j, w, next) && Within(c.j, next)
  {
    next := p;
    if n > 0 {
      next := NextPoint(p, n, w);
      OnCourseNext(e, copied, c.j, w, p, n);
      WantedAfterBlock(c.j, p.pos, p.left);
    } else {
      OnCourseLast(e, copied, c.j, w, p, res);
    }
  }

  // ---------------------------------------------------------------------------------------------
  // The loops

  /** Two different nodes, each with a buffer of its own. */
  ghost predicate Apart(src: VfsDataNode, dst: VfsDataNode)
    reads src, src.dataBuffer, dst, dst.dataBuffer
  {
    src.Valid() && dst.Valid() && src != dst && src.dataBuffer != dst.dataBuffer
  }

  /** A copy is under way, and the destination holds what was copied so far. */
  ghost predicate Underway(src: VfsDataNode, dst: VfsDataNode, c: Course, copied: nat)
    reads src, src.dataBuffer, dst, dst.dataBuffer
  {
    && Apart(src, dst) && src.Contents() == c.source
    && c.j == Job(src.dataLength, src.access.read, dst.access.write, c.j.block)
    && (copied > 0 ==> c.start + copied <= src.dataLength)
    && Copied(c.before, c.source, c.start, c.out, copied, dst.Contents())
  }

  class DataReader {
    var semaphore: nat
    var unread: string

    constructor ()
      ensures semaphore == 0 && unread == ""
    {
      semaphore, unread := 0, "";
    }

    /** The callback of the serial driver: no more than one post is pending. */
    method OnSerialInput()
      modifies this`semaphore
      ensures semaphore > 0 && old(semaphore) <= semaphore <= Max(old(semaphore), 1)
    {
      if semaphore <= 0 {
        semaphore := semaphore + 1;
      }
    }

    /** Bytes arrive, and the driver's callback follows. */
    method Receive(bytes: string)
      modifies this
      ensures unread == old(unread) + bytes
      ensures semaphore == if bytes != "" && old(semaphore) == 0 then 1 else old(semaphore)
    {
      unread := unread + bytes;
      if bytes != "" {
        OnSerialInput();
      }
    }

    /** The driver hands out some of the bytes that have arrived. */
    method ReadInput(room: nat) returns (bytes: string)
      requires room > 0
      modifies this`unread
      ensures old(unread) == bytes + unread && |bytes| <= room
      ensures bytes == "" <==> old(unread) == ""
    {
      if unread == "" {
        return "";
      }
      var n :| 1 <= n <= room && n <= |unread|;
      bytes, unread := unread[..n], unread[n..];
    }

    /** Reads all input that has arrived, up to the first buffer that holds 0x03. */
    method IsTerminateRequested() returns (requested: bool)
      modifies this
      ensures requested <==> old(semaphore) > 0 && ETX in old(unread)
      ensures !requested ==> semaphore == 0 && unread == if old(semaphore) > 0 then "" else old(unread)
    {
      while semaphore > 0
        invariant (semaphore == old(semaphore) && unread == old(unread))
               || (old(semaphore) > 0 && unread == "" && ETX !in old(unread))
        decreases semaphore
      {
        semaphore := semaphore - 1;
        ghost var left := semaphore;
        var more := true;
        while more
          invariant old(semaphore) > 0 && semaphore == left
          invariant ETX in old(unread) <==> ETX in unread
          invariant !more ==> unread == ""
          decreases |unread|, more
        {
          var rxBuffer := ReadInput(RX_BUFFER);
          more := rxBuffer != "";
          var i := 0;
          while i < |rxBuffer|
            invariant i <= |rxBuffer| && ETX !in rxBuffer[..i]
          {
            if rxBuffer[i] == ETX {
              return true;
            }
            i := i + 1;
          }
        }
      }
      return false;
    }

    /** The callback of `dd` and `cp`: one block is written, and the destination position moves past it. */
    method OnDataRead(dst: VfsDataNode, position: nat, bytes: string, memory: bool) returns (res: Result, next: nat)
      requires dst.Valid() && bytes != "" && position + |bytes| <= MAX_END
      modifies dst, dst.dataBuffer
      ensures dst.Valid() && dst.access == old(dst.access)
      ensures dst.dataBuffer == old(dst.dataBuffer) || fresh(dst.dataBuffer)
      ensures res == if !dst.access.write then E_ACCESS
                     else if position + |bytes| > old(dst.dataCapacity) && !memory then E_MEMORY else E_OK
      ensures res == E_OK ==> next == position + |bytes|
                              && dst.sizes == WriteSizes(old(dst.sizes), next, memory)
                              && Copied(old(dst.Contents()), bytes, 0, position, |bytes|, dst.Contents())
      ensures res != E_OK ==> next == position && dst.Contents() == old(dst.Contents())
    {
      var written;
      res, written := dst.Write(position, bytes, memory);
      next := position;
      if res != E_OK || |bytes| != written {
        if res == E_OK {
          res := E_FULL;
        }
      } else {
        next := next + written;
        assert dst.dataBuffer[position..next] == bytes;
      }
    }

    /** A block read from the source, and the callback on it. */
    method Transfer(src: VfsDataNode, dst: VfsDataNode, block: nat, pos: nat, out: nat, memory: bool, ghost j: Job)
      returns (res: Result, n: nat)
      requires Apart(src, dst) && j == Job(src.dataLength, src.access.read, dst.access.write, block)
      requires pos < src.dataLength && block > 0 ==> out + Min(src.dataLength - pos, block) <= MAX_END
      modifies dst, dst.dataBuffer
      ensures dst.Valid() && dst.access == old(dst.access)
      ensures dst.dataBuffer == old(dst.dataBuffer) || fresh(dst.dataBuffer)
      ensures OneTransfer(j, pos, out, old(dst.sizes), memory) == if n == 0 then Last(res) else Next(n)
      ensures if n == 0 then dst.Contents() == old(dst.Contents())
              else Copied(old(dst.Contents()), src.Contents(), pos, out, n, dst.Contents())
                   && dst.sizes == WriteSizes(old(dst.sizes), out + n, memory)
    {
      n := 0;
      var bytes;
      res, bytes := src.Read(pos, block);
      if res == E_EMPTY || res == E_ADDRESS {
        return E_OK, 0;
      } else if res == E_OK {
        if |bytes| > 0 {
          var next;
          ghost var before, source := dst.Contents(), src.Contents();
          res, next := OnDataRead(dst, out, bytes, memory);
          if res != E_OK {
            return;
          }
          n := |bytes|;
          BlockOfSource(before, source, pos, out, bytes, dst.Contents());
        }
      }
    }

    /** Nothing typed is pending, and the nodes are two. */
    ghost predicate Ready(src: VfsDataNode, dst: VfsDataNode)
      reads this, src, src.dataBuffer, dst, dst.dataBuffer
    {
      Idle() && Apart(src, dst)
    }

    ghost predicate Idle()
      reads this
    {
      semaphore == 0 && unread == ""
    }

    /** The poll of a turn: the typed bytes arrive, and all are read unless 0x03 is among them. */
    method Poll(typed: string) returns (stop: bool)
      requires Idle()
      modifies this
      ensures stop == (ETX in typed) && (!stop ==> Idle())
    {
      Receive(typed);
      stop := IsTerminateRequested();
    }

    /** The block of a turn, after those that were copied before. */
    method TransferNext(src: VfsDataNode, dst: VfsDataNode, block: nat, pos: nat, out: nat, memory: bool,
        ghost c: Course, ghost copied: nat)
      returns (res: Result, n: nat)
      requires Underway(src, dst, c, copied) && c.j.block == block && pos == c.start + copied && out == c.out + copied
      requires pos < src.dataLength && block > 0 ==> out + Min(src.dataLength - pos, block) <= MAX_END
      modifies dst, dst.dataBuffer
      ensures Underway(src, dst, c, copied + n)
      ensures dst.access == old(dst.access) && (dst.dataBuffer == old(dst.dataBuffer) || fresh(dst.dataBuffer))
      ensures OneTransfer(c.j, pos, out, old(dst.sizes), memory) == if n == 0 then Last(res) else Next(n)
      ensures n > 0 ==> dst.sizes == WriteSizes(old(dst.sizes), out + n, memory)
    {
      ghost var middle := dst.Contents();
      res, n := Transfer(src, dst, block, pos, out, memory, c.j);
      if n > 0 {
        CopiedMore(c.before, c.source, c.start, c.out, copied, middle, n, dst.Contents());
      }
    }

    /** One turn of a copy under way: a poll, and unless the copy is to end, a block. */
    method CopyBlock(src: VfsDataNode, dst: VfsDataNode, block: nat, pos: nat, out: nat, w: Surroundings, k: nat,
        ghost c: Course, ghost copied: nat)
      returns (res: Result, n: nat)
      requires Idle() && Underway(src, dst, c, copied) && c.j.block == block
      requires pos == c.start + copied && out == c.out + copied
      requires pos < src.dataLength && block > 0 ==> out + Min(src.dataLength - pos, block) <= MAX_END
      modifies this, dst, dst.dataBuffer
      ensures Underway(src, dst, c, copied + n) && (n > 0 ==> Idle())
      ensures dst.access == old(dst.access) && (dst.dataBuffer == old(dst.dataBuffer) || fresh(dst.dataBuffer))
      ensures OneTurn(c.j, w, pos, out, k, old(dst.sizes)) == if n == 0 then Last(res) else Next(n)
      ensures n > 0 ==> dst.sizes == WriteSizes(old(dst.sizes), out + n, w.memory(k))
    {
      var stop := Poll(w.typed(k));
      if stop {
        return E_TIMEOUT, 0;
      }
      res, n := TransferNext(src, dst, block, pos, out, w.memory(k), c, copied);
    }

    /** One turn of a copy that ends as e: the last one, or one that leaves it on course. */
    method CopyTurn(src: VfsDataNode, dst: VfsDataNode, block: nat, pos: nat, out: nat, w: Surroundings, k: nat,
        ghost c: Course, ghost copied: nat, ghost p: Point, ghost e: Ending)
      returns (res: Result, n: nat, ghost next: Point)
      requires Idle() && Underway(src, dst, c, copied) && c.j.block == block
      requires pos == c.start + copied && out == c.out + copied && k == p.k
      requires pos == p.pos && out == p.out && p.s == dst.sizes && p.left != 0
      requires OnCourse(e, copied, c.j, w, p) && Within(c.j, p)
      modifies this, dst, dst.dataBuffer
      ensures Underway(src, dst, c, copied + n) && (n > 0 ==> Idle())
      ensures dst.access == old(dst.access) && (dst.dataBuffer == old(dst.dataBuffer) || fresh(dst.dataBuffer))
      ensures if n == 0 then e == Ending(res, copied)
              else next == NextPoint(p, n, w) && next.s == dst.sizes && OnCourse(e, copied + n, c.j, w, next)
                   && Within(c.j, next)
    {
      NextFits(c.j, p);
      res, n := CopyBlock(src, dst, block, pos, out, w, k, c, copied);
      next := AfterTurn(e, copied, c, w, p, res, n);
    }

    /** The loop of `read`, for a copy that ends as e. */
    method CopyBlocks(src: VfsDataNode, dst: VfsDataNode, block: nat, count: nat, start: nat, out: nat, w: Surroundings,
        ghost c: Course, ghost first: Point, ghost e: Ending)
      returns (res: Result)
      requires Idle() && Underway(src, dst, c, 0) && c.j.block == block && c.start == start && c.out == out
      requires first == Point(start, out, Limit(count), 0, dst.sizes)
      requires OnCourse(e, 0, c.j, w, first) && Within(c.j, first)
      modifies this, dst, dst.dataBuffer
      ensures Underway(src, dst, c, e.copied) && dst.access == old(dst.access) && res == e.res
    {
      var srcPosition, dstPosition, blocks, polls := start, out, 0, 0;
      ghost var copied: nat, p := 0, first;
      while count == 0 || blocks < count
        invariant Idle() && Underway(src, dst, c, copied) && dst.access == old(dst.access)
        invariant dst.dataBuffer == old(dst.dataBuffer) || fresh(dst.dataBuffer)
        invariant srcPosition == start + copied && dstPosition == out + copied
        invariant p.left == (if count == 0 then -1 else count - blocks) && (count > 0 ==> p.left >= 0)
        invariant p.pos == srcPosition && p.out == dstPosition && p.k == polls && p.s == dst.sizes
        invariant OnCourse(e, copied, c.j, w, p) && Within(c.j, p)
        decreases if srcPosition <= src.dataLength then src.dataLength - srcPosition else 0
      {
        var n;
        ghost var next;
        res, n, next := CopyTurn(src, dst, block, srcPosition, dstPosition, w, polls, c, copied, p, e);
        if n == 0 {
          return;
        }
        blocks, polls := blocks + 1, polls + 1;
        srcPosition, dstPosition := srcPosition + n, dstPosition + n;
        copied, p := copied + n, next;
      }
      OnCourseLast(e, copied, c.j, w, p, E_OK);
      res := E_OK;
    }

    /**
     Copies blocks until the source ends, the count is reached, 0x03 arrives or a write fails. Each poll is preceded by
     the arrival of the bytes typed since the last one.
     */
    method Read(src: VfsDataNode, dst: VfsDataNode, block: nat, count: nat, skip: nat, out: nat, w: Surroundings)
      returns (res: Result, ghost copied: nat)
      requires Ready(src, dst)
      requires block > 0 && block * skip < src.dataLength ==>
                 out + (if count == 0 then src.dataLength - block * skip
                        else Min(src.dataLength - block * skip, count * block)) <= MAX_END
      modifies this, dst, dst.dataBuffer
      ensures src.Valid() && dst.Valid() && dst.access == old(dst.access)
      ensures copied > 0 ==> block * skip + copied <= src.dataLength
      ensures Copied(old(dst.Contents()), src.Contents(), block * skip, out, copied, dst.Contents())
      ensures Outcome(Ending(res, copied), w, src.dataLength, src.access.read, dst.access.write, block * skip, block,
                      count)
    {
      ghost var j, start := Job(src.dataLength, src.access.read, dst.access.write, block), block * skip;
      ghost var e := Plan(j, w, start, out, Limit(count), 0, dst.sizes);
      ghost var c := Course(j, start, out, src.Contents(), dst.Contents());
      ghost var first := Point(start, out, Limit(count), 0, dst.sizes);
      WantedIs(j, start, count);
      PlanEnds(j, w, start, out, count, dst.sizes);
      res := CopyBlocks(src, dst, block, count, block * skip, out, w, c, first, e);
      copied := e.copied;
    }
  }

  /** The block count as a limit: 0 is none. */
  function Limit(count: nat): int {
    if count == 0 then -1 else count
  }

  lemma WantedIs(j: Job, from: nat, count: nat)
    ensures j.block > 0 && from <= j.sourceLength ==>
              Wanted(j, from, Limit(count))
              == if count == 0 then j.sourceLength - from else Min(j.sourceLength - from, count * j.block)
    ensures j.block == 0 || from > j.sourceLength ==> Wanted(j, from, Limit(count)) == 0
  {
  }

  /**
   How a copy ends, told by the lengths: at once when 0x03 was typed before, when the source cannot be read or begins
   too late, when nothing is left to copy or the destination cannot be written; else after whole blocks, or with all
   that the source or the count allows, which is where it ends undisturbed.
   */
  ghost predicate Outcome(e: Ending, w: Surroundings, sourceLength: nat, readable: bool, writable: bool, from: nat,
      block: nat, count: nat)
  {
    && (ETX in w.typed(0) ==> e == Ending(E_TIMEOUT, 0))
    && (ETX !in w.typed(0) ==>
          && (!readable ==> e == Ending(E_ACCESS, 0))
          && (readable && from > sourceLength ==> e == Ending(E_VALUE, 0))
          && (readable && (from == sourceLength || (from < sourceLength && block == 0)) ==> e == Ending(E_OK, 0))
          && (readable && from < sourceLength && block > 0 && !writable ==> e == Ending(E_ACCESS, 0)))
    && (readable && writable && from <= sourceLength && block > 0 ==>
          var length := if count == 0 then sourceLength - from else Min(sourceLength - from, count * block);
          && (exists blocks: nat :: EndsAfter(e, w, 0, blocks, blocks * block, length))
          && ((forall i: nat :: Quiet(w, i)) ==> e == Ending(E_OK, length)))
  }

  lemma PlanEnds(j: Job, w: Surroundings, from: nat, out: nat, count: nat, s: Sizes)
    ensures Outcome(Plan(j, w, from, out, Limit(count), 0, s), w, j.sourceLength, j.readable, j.writable, from, j.block,
                    count)
  {
    PlanEndsAtOnce(j, w, from, out, count, s);
    if j.readable && j.writable && from <= j.sourceLength && j.block > 0 {
      WantedIs(j, from, count);
      var blocks := CopyEndsAfterBlocks(j, w, from, out, Limit(count), 0, s);
      if forall i: nat :: Quiet(w, i) {
        UninterruptedCopy(j, w, from, out, Limit(count), 0, s);
      }
    }
  }

  lemma PlanEndsAtOnce(j: Job, w: Surroundings, from: nat, out: nat, count: nat, s: Sizes)
    ensures var e := Plan(j, w, from, out, Limit(count), 0, s);
            && (ETX in w.typed(0) ==> e == Ending(E_TIMEOUT, 0))
            && (ETX !in w.typed(0) ==>
                  && (!j.readable ==> e == Ending(E_ACCESS, 0))
                  && (j.readable && from > j.sourceLength ==> e == Ending(E_VALUE, 0))
                  && (j.readable && from <= j.sourceLength && (from == j.sourceLength || j.block == 0) ==>
                        e == Ending(E_OK, 0))
                  && (j.readable && from < j.sourceLength && j.block > 0 && !j.writable ==> e == Ending(E_ACCESS, 0)))
  {
  }

  /** The block copy of `dd`: `skip` blocks into the source, `seek` blocks into the destination. */
  method DirectData(reader: DataReader, src: VfsDataNode, dst: VfsDataNode, bs: nat, count: nat, skip: nat, seek: nat,
      w: Surroundings)
    returns (res: Result, ghost copied: nat)
    requires reader.Ready(src, dst)
    requires bs > 0 && bs * skip < src.dataLength ==>
               seek * bs + (if count == 0 then src.dataLength - bs * skip
                            else Min(src.dataLength - bs * skip, count * bs)) <= MAX_END
    modifies reader, dst, dst.dataBuffer
    ensures dst.Valid() && src.Valid() && dst.access == old(dst.access)
    // Whatever happens, the old destination is overlaid with what was copied, and nothing else
    ensures copied > 0 ==> bs * skip + copied <= src.dataLength
    ensures Copied(old(dst.Contents()), src.Contents(), bs * skip, seek * bs, copied, dst.Contents())
    // How it ends, and where, when it is disturbed or cannot copy
    ensures Outcome(Ending(res, copied), w, src.dataLength, src.access.read, dst.access.write, bs * skip, bs, count)
    // Undisturbed, it ends at the end of the source or of the count
    ensures bs > 0 && src.access.read && dst.access.write && bs * skip <= src.dataLength
            && (forall i: nat :: Quiet(w, i)) ==>
              && res == E_OK
              && copied == if count == 0 then src.dataLength - bs * skip
                           else Min(src.dataLength - bs * skip, count * bs)
  {
    var pos := seek * bs;
    res, copied := reader.Read(src, dst, bs, count, skip, pos, w);
  }

  /** The block copy of `cp`: the destination begins with what was copied; undisturbed, with the whole source. */
  method CopyNodes(reader: DataReader, src: VfsDataNode, dst: VfsDataNode, bufferSize: nat, w: Surroundings)
    returns (res: Result, ghost copied: nat)
    requires reader.Ready(src, dst) && src.dataLength <= MAX_END && bufferSize > 0
    modifies reader, dst, dst.dataBuffer
    ensures dst.Valid() && src.Valid() && copied <= src.dataLength
    ensures dst.Contents() == src.Contents()[..copied] + old(dst.Contents())[Min(copied, old(dst.dataLength))..]
    ensures Outcome(Ending(res, copied), w, src.dataLength, src.access.read, dst.access.write, 0, bufferSize, 0)
    ensures src.access.read && dst.access.write && (forall i: nat :: Quiet(w, i)) ==>
              res == E_OK && copied == src.dataLength
  {
    ghost var before := dst.Contents();
    assert bufferSize * 0 == 0;
    res, copied := reader.Read(src, dst, bufferSize, 0, 0, 0, w);
    assert dst.Contents() == src.Contents()[..copied] + before[Min(copied, |before|)..];
  }
}
