/** `TerminalProxy`: a terminal whose input or output may be a file. */
module TerminalProxy {
  import opened Ascii
  import opened Extremes
  import opened Xcore
  import opened DataNode

  /** The bytes of all bursts, in order. */
  function Flatten(bursts: seq<string>): string {
    if bursts == [] then "" else bursts[0] + Flatten(bursts[1..])
  }

  /** The input of the real terminal: what has arrived, and the bursts that are still to come. */
  class Keyboard {
    var unread: string
    var coming: seq<string>

    constructor (bursts: seq<string>)
      ensures unread == "" && coming == bursts
    {
      unread, coming := "", bursts;
    }

    ghost function Stream(): string
      reads this
    {
      unread + Flatten(coming)
    }

    /** Any number of the bytes that have arrived, at least one if there are any; bursts may arrive just before. */
    method Read(length: nat) returns (bytes: string)
      requires length > 0
      modifies this
      ensures old(Stream()) == bytes + Stream() && |bytes| <= length && |coming| <= |old(coming)|
      ensures bytes == "" ==> unread == ""
    {
      Arrive();
      if unread == "" {
        return "";
      }
      var n :| 1 <= n <= length && n <= |unread|;
      bytes, unread := unread[..n], unread[n..];
      assert bytes + unread + Flatten(coming) == bytes + (unread + Flatten(coming));
    }

    /** Any number of bursts arrive. */
    method Arrive()
      modifies this
      ensures Stream() == old(Stream()) && |coming| <= |old(coming)|
    {
      var count: nat :| count <= |coming|;
      while count > 0
        invariant Stream() == old(Stream()) && count <= |coming| <= |old(coming)|
      {
        var woken := Await();
        count := count - 1;
      }
    }

    /** Waits for the next burst, in vain when there is none. */
    method Await() returns (woken: bool)
      modifies this
      ensures Stream() == old(Stream())
      ensures if woken then |coming| == |old(coming)| - 1
              else old(coming) == [] && coming == [] && unread == old(unread)
    {
      if coming == [] {
        return false;
      }
      assert unread + (coming[0] + Flatten(coming[1..])) == unread + coming[0] + Flatten(coming[1..]);
      unread, coming := unread + coming[0], coming[1..];
      return true;
    }
  }

  /** The input side of the proxy. */
  class Input {
    const keyboard: Keyboard
    const node: VfsDataNode?
    var position: nat
    var eof: bool

    constructor (keyboard: Keyboard, node: VfsDataNode?)
      ensures this.keyboard == keyboard && this.node == node && position == 0 && !eof
    {
      this.keyboard, this.node := keyboard, node;
      position, eof := 0, false;
    }

    ghost predicate Valid()
      reads this, node, if node == null then {} else {node.dataBuffer}
    {
      node != null ==> node.Valid() && position <= node.dataLength
    }

    /** Every byte that reads will still yield: the rest of a readable file and one 0x03, or what is typed. */
    ghost function Stream(): string
      requires Valid()
      reads this, keyboard, node, if node == null then {} else {node.dataBuffer}
    {
      if node == null then keyboard.Stream()
      else if !node.access.read then ""
      else node.Contents()[position..] + if eof && position == node.dataLength then "" else [ETX]
    }

    method Read(length: nat) returns (bytes: string)
      requires Valid()
      modifies this, keyboard
      ensures Valid() && old(Stream()) == bytes + Stream() && |bytes| <= length
      ensures |keyboard.coming| <= |old(keyboard.coming)|
      ensures length > 0 && bytes == "" ==> if node != null then Stream() == "" else keyboard.unread == ""
    {
      if length == 0 {
        return "";
      }
      if node != null {
        bytes := ReadNode(length);
      } else {
        bytes := keyboard.Read(length);
      }
    }

    /** A read from the file, where the end is marked once. */
    method ReadNode(length: nat) returns (bytes: string)
      requires Valid() && node != null && length > 0
      modifies this
      ensures Valid() && old(Stream()) == bytes + Stream() && |bytes| <= length
      ensures bytes == "" ==> Stream() == ""
    {
      var res;
      res, bytes := node.Read(position, length);
      ghost var rest := node.Contents()[position..];
      if res == E_OK {
        if |bytes| > 0 {
          assert rest == bytes + node.Contents()[position + |bytes|..];
          position := position + |bytes|;
          eof := false;
        } else if !eof {
          assert rest == "";
          eof := true;
          return [ETX];
        } else {
          assert rest == "";
          return "";
        }
      } else {
        return "";
      }
    }
  }

  /** The output side of the proxy, when it is a file. */
  class Output {
    const node: VfsDataNode
    var position: nat
    /** Where the output began, what the file held then, and every byte accepted since. */
    ghost const start: nat
    ghost const before: string
    ghost var accepted: string

    ghost predicate Valid()
      reads this, node, node.dataBuffer
    {
      && node.Valid() && start <= |before| && position == start + |accepted|
      && node.Contents() == Redirected(before, start, accepted)
    }

    /** With `append`, output goes after the old contents. */
    constructor (node: VfsDataNode, append: bool)
      requires node.Valid()
      ensures Valid() && this.node == node && before == node.Contents() && accepted == ""
      ensures start == if append then |before| else 0
    {
      this.node := node;
      position := if append then node.dataLength else 0;
      start := if append then node.dataLength else 0;
      before, accepted := node.Contents(), "";
      new;
      assert before == Redirected(before, start, "");
    }

    /** Writes go through in full, or not at all when the file is read-only or cannot grow. */
    method Write(bytes: string, memory: bool) returns (count: nat)
      requires Valid() && position + |bytes| <= MAX_END
      modifies this`position, this`accepted, node, node.dataBuffer
      ensures Valid() && (node.dataBuffer == old(node.dataBuffer) || fresh(node.dataBuffer))
      ensures count == if old(node.access.write) && (old(position) + |bytes| <= old(node.dataCapacity) || memory)
                       then |bytes| else 0
      ensures accepted == if count > 0 then old(accepted) + bytes else old(accepted)
    {
      if |bytes| == 0 {
        return 0;
      }
      var res := WriteNode(bytes, memory);
      if res != E_OK {
        return 0;
      }
      Overlay(before, start, accepted, bytes, node.Contents());
      position, accepted := position + |bytes|, accepted + bytes;
      count := |bytes|;
    }

    method WriteNode(bytes: string, memory: bool) returns (res: Result)
      requires node.Valid() && position + |bytes| <= MAX_END
      modifies node, node.dataBuffer
      ensures node.Valid() && (node.dataBuffer == old(node.dataBuffer) || fresh(node.dataBuffer))
      ensures res == E_OK <==>
              old(node.access.write) && (position + |bytes| <= old(node.dataCapacity) || memory)
      ensures if res == E_OK then Overlays(old(node.Contents()), position, bytes, node.Contents())
              else node.Contents() == old(node.Contents())
    {
      var written;
      res, written := node.Write(position, bytes, memory);
    }
  }

  /** The bytes at a position, over the old contents. */
  ghost predicate Overlays(before: string, position: nat, bytes: string, after: string) {
    && |after| == Max(|before|, position + |bytes|)
    && after[position..position + |bytes|] == bytes
    && forall i | 0 <= i < |before| && !(position <= i < position + |bytes|) :: after[i] == before[i]
  }

  /** A file with output accepted from some position on. */
  function Redirected(before: string, start: nat, accepted: string): string
    requires start <= |before|
  {
    before[..start] + accepted + before[Min(start + |accepted|, |before|)..]
  }

  lemma Overlay(before: string, start: nat, accepted: string, bytes: string, after: string)
    requires start <= |before| && Overlays(Redirected(before, start, accepted), start + |accepted|, bytes, after)
    ensures after == Redirected(before, start, accepted + bytes)
  {
    var p, r := start + |accepted|, Redirected(before, start, accepted + bytes);
    assert |r| == |after|;
    forall i | 0 <= i < |r|
      ensures r[i] == after[i]
    {
      if p <= i < p + |bytes| {
        assert after[i] == after[p..p + |bytes|][i - p];
      }
    }
  }
}
