/** expat's string pool: strings packed into blocks that are never moved once a string in them is finished. */
module StringPool {

  const INIT_BLOCK_SIZE: nat := 1024

  /** A finished string: where it lies and what it says. */
  datatype Str = Str(block: array<char>, off: nat, text: string)

  /** The string still lies where it was and says what it said. */
  ghost predicate Kept(f: Str)
    reads f.block
  {
    f.off + |f.text| <= f.block.Length && f.block[f.off..f.off + |f.text|] == f.text
  }

  predicate Distinct(blocks: seq<array<char>>) {
    && (forall i, j :: 0 <= i < j < |blocks| ==> blocks[i] != blocks[j])
    && (forall i :: 0 <= i < |blocks| ==> blocks[i].Length > 0)
  }

  /** No block twice, and none empty. */
  predicate Separate(blocks: seq<array<char>>, free: seq<array<char>>) {
    Distinct(blocks) && Distinct(free) && forall b :: b in blocks ==> b !in free
  }

  /** All the blocks of two lists. */
  ghost function Kin(a: seq<array<char>>, b: seq<array<char>>): set<array<char>> {
    (set x | x in a) + (set x | x in b)
  }

  lemma {:induction false} SeparateMoved(p: seq<array<char>>, free: seq<array<char>>)
    requires p != [] && Separate(p, free)
    ensures Separate(p[1..], [p[0]] + free) && Kin(p[1..], [p[0]] + free) == Kin(p, free)
  {
    assert p == [p[0]] + p[1..];
    assert p[0] in p && p[0] !in p[1..] && p[0] !in free;
  }

  lemma {:induction false} SeparateReplaced(p: seq<array<char>>, free: seq<array<char>>, b: array<char>)
    requires p != [] && Separate(p, free) && b !in p && b !in free && b.Length > 0
    ensures Separate([b] + p[1..], free) && Kin([b] + p[1..], free) <= Kin(p, free) + {b}
  {
    assert p == [p[0]] + p[1..];
  }

  class Pool {
    /** The blocks in use, newest first, and the ones to be used again. */
    var blocks: seq<array<char>>
    var freeBlocks: seq<array<char>>
    /** The string in progress and the end of the newest block; without a block all of them are null. */
    var start: nat
    var ptr: nat
    var end: nat
    ghost var finished: seq<Str>

    ghost function Memory(): set<array<char>>
      reads this
    {
      Kin(blocks, freeBlocks)
    }

    ghost predicate Placed()
      reads this
    {
      && Separate(blocks, freeBlocks)
      && (if blocks == [] then start == ptr == end == 0 else start <= ptr <= end == blocks[0].Length)
    }

    /** A finished string that is not empty lies in a block in use, clear of the string in progress. */
    ghost predicate Safe(f: Str)
      reads this, blocks
    {
      f.text != "" ==> f.block in blocks && Kept(f) && (f.block == blocks[0] ==> f.off + |f.text| <= start)
    }

    ghost predicate Valid()
      reads this, blocks
    {
      && Placed()
      && (forall f :: f in finished ==> Safe(f))
    }

    /** The string in progress. */
    ghost function Current(): string
      reads this, blocks
      requires Placed()
    {
      if blocks == [] then "" else blocks[0][start..ptr]
    }

    constructor ()
      ensures Valid() && finished == [] && Memory() == {} && Current() == ""
    {
      blocks, freeBlocks, finished := [], [], [];
      start, ptr, end := 0, 0, 0;
    }

    /** Copies n characters to the beginning of another block. */
    static method CopyChars(to: array<char>, from: array<char>, at: nat, n: nat)
      requires to != from && n <= to.Length && at + n <= from.Length
      modifies to
      ensures to[0..n] == from[at..at + n]
    {
      var i := 0;
      while i < n
        invariant 0 <= i <= n && to[0..i] == from[at..at + i]
      {
        to[i] := from[at + i];
        i := i + 1;
      }
    }

    /** Takes block b as the newest one and copies the string in progress to its beginning. */
    method MoveTo(b: array<char>)
      requires Valid() && blocks != [] && b !in blocks && b !in freeBlocks && end - start < b.Length
      modifies this`blocks, this`start, this`ptr, this`end, b
      ensures Valid() && Memory() == old(Memory()) + {b} && Current() == old(Current()) && ptr < end
    {
      var n := ptr - start;
      CopyChars(b, blocks[0], start, n);
      assert forall f :: f in finished ==> Safe(f);
      ghost var before := blocks;
      blocks := [b] + blocks;
      start, ptr, end := 0, n, b.Length;
      assert forall k :: k in before ==> k in blocks && k != b;
    }

    /** The first block of a pool, or of one that has been cleared, is taken over from the free ones. */
    method Reuse()
      requires Valid() && blocks == [] && freeBlocks != []
      modifies this`blocks, this`freeBlocks, this`end
      ensures Valid() && Memory() == old(Memory()) && Current() == "" && ptr < end
    {
      assert freeBlocks == [freeBlocks[0]] + freeBlocks[1..];
      assert forall f :: f in finished ==> f.text == "";
      blocks, freeBlocks := [freeBlocks[0]], freeBlocks[1..];
      end := blocks[0].Length;
      assert blocks[0][0..0] == "";
    }

    /** Puts a block that begins like the newest one in its place. */
    method Exchange(b: array<char>)
      requires Valid() && blocks != [] && start == 0 && b !in blocks && b !in freeBlocks && end < b.Length
      requires b[0..ptr] == blocks[0][0..ptr]
      modifies this`blocks, this`end
      ensures Valid() && Current() == old(Current()) && ptr < end
      ensures blocks == [b] + old(blocks)[1..] && Memory() <= old(Memory()) + {b}
    {
      ghost var before := blocks;
      SeparateReplaced(blocks, freeBlocks, b);
      blocks, end := [b] + blocks[1..], b.Length;
      assert forall k :: k in before ==> k == before[0] || k in blocks;
      assert forall f :: f in finished && f.text != "" ==> f.block != before[0];
    }

    /** realloc of the newest block, which holds nothing but the string in progress. */
    method Reallocate()
      requires Valid() && blocks != [] && start == 0 && end > 0
      modifies this`blocks, this`end
      ensures Valid() && Current() == old(Current()) && ptr < end && blocks != []
      ensures fresh(blocks[0]) && Memory() <= old(Memory()) + {blocks[0]}
    {
      var b := new char[end * 2];
      CopyChars(b, blocks[0], 0, end);
      assert b[0..ptr] == b[0..end][..ptr] == blocks[0][0..end][..ptr];
      Exchange(b);
    }

    /** poolGrow: more room for the string in progress, whatever has to be done for it. */
    method Grow()
      requires Valid()
      modifies this`blocks, this`freeBlocks, this`start, this`ptr, this`end, Memory()
      ensures Valid() && Current() == old(Current()) && blocks != []
      ensures fresh(Memory() - old(Memory()))
      ensures ptr < end
    {
      if freeBlocks != [] {
        if blocks == [] {
          Reuse();
          return;
        }
        if end - start < freeBlocks[0].Length {
          var b := freeBlocks[0];
          freeBlocks := freeBlocks[1..];
          MoveTo(b);
          return;
        }
      }
      if blocks != [] && start == 0 {
        Reallocate();
      } else {
        var blockSize := end - start;
        blockSize := if blockSize < INIT_BLOCK_SIZE then INIT_BLOCK_SIZE else blockSize * 2;
        var b := new char[blockSize];
        if blocks == [] {
          blocks, end := [b], blockSize;
        } else {
          MoveTo(b);
        }
      }
    }

    method AppendChar(c: char)
      requires Valid()
      modifies this`blocks, this`freeBlocks, this`start, this`ptr, this`end, Memory()
      ensures Valid() && Current() == old(Current()) + [c] && blocks != []
      ensures fresh(Memory() - old(Memory()))
    {
      if ptr == end {
        Grow();
      }
      Put(c);
    }

    /** Writes one character into the room there is. */
    method Put(c: char)
      requires Valid() && blocks != [] && ptr < end
      modifies this`ptr, blocks[0]
      ensures Valid() && Current() == old(Current()) + [c]
    {
      blocks[0][ptr] := c;
      assert forall f :: f in finished && f.text != "" && f.block == blocks[0] ==>
          f.block[f.off..f.off + |f.text|] == old(f.block[f.off..f.off + |f.text|]);
      ptr := ptr + 1;
    }

    /** Takes the last character back. */
    method Chop()
      requires Valid() && Current() != ""
      modifies this`ptr
      ensures Valid() && Current() == old(Current())[..|old(Current())| - 1]
    {
      ptr := ptr - 1;
    }

    /** Drops the string in progress. */
    method Discard()
      requires Valid()
      modifies this`ptr
      ensures Valid() && Current() == ""
    {
      ptr := start;
    }

    /** The string in progress is finished; the next one begins behind it. */
    method Finish() returns (f: Str)
      requires Valid() && blocks != []
      modifies this`start, this`finished
      ensures Valid() && f.text == old(Current()) && finished == old(finished) + [f] && Current() == ""
      ensures Kept(f) && f.block in blocks
    {
      f := Str(blocks[0], start, blocks[0][start..ptr]);
      finished := finished + [f];
      start := ptr;
    }

    /** poolAppend with an encoding that maps every byte to one character. */
    method Append(text: string)
      requires Valid()
      modifies this`blocks, this`freeBlocks, this`start, this`ptr, this`end, Memory()
      ensures Valid() && Current() == old(Current()) + text && blocks != []
      ensures fresh(Memory() - old(Memory()))
    {
      if blocks == [] {
        Grow();
      }
      ghost var before := Current();
      var i := 0;
      assert before + text[..0] == before;
      while true
        invariant 0 <= i <= |text| && Valid() && blocks != [] && Current() == before + text[..i]
        invariant fresh(Memory() - old(Memory()))
        decreases |text| - i, ptr == end
      {
        i := Convert(text, i, before);
        if i == |text| {
          assert text[..i] == text;
          return;
        }
        Grow();
      }
    }

    /** Copies characters of text from i on for as long as there is room. */
    method Convert(text: string, i: nat, ghost before: string) returns (k: nat)
      requires Valid() && blocks != [] && i <= |text| && Current() == before + text[..i]
      modifies this`ptr, blocks[0]
      ensures Valid() && i <= k <= |text| && Current() == before + text[..k]
      ensures k == |text| || (ptr == end && (old(ptr) < end ==> k > i))
    {
      k := i;
      while k < |text| && ptr < end
        invariant i <= k <= |text| && Valid() && Current() == before + text[..k] && ptr == old(ptr) + k - i
        decreases |text| - k
      {
        Put(text[k]);
        k := k + 1;
        assert before + text[..k - 1] + [text[k - 1]] == before + text[..k];
      }
    }

    /** Appends n characters one by one. */
    method AppendChars(text: string, n: nat)
      requires Valid() && n <= |text|
      modifies this`blocks, this`freeBlocks, this`start, this`ptr, this`end, Memory()
      ensures Valid() && Current() == old(Current()) + text[..n] && (old(blocks) != [] || n > 0 ==> blocks != [])
      ensures fresh(Memory() - old(Memory()))
    {
      var i := 0;
      ghost var before := Current();
      assert before + text[..0] == before;
      while i < n
        invariant 0 <= i <= n && Valid() && Current() == before + text[..i]
        invariant old(blocks) != [] || i > 0 ==> blocks != []
        invariant fresh(Memory() - old(Memory()))
      {
        AppendChar(text[i]);
        i := i + 1;
        assert before + text[..i - 1] + [text[i - 1]] == before + text[..i];
      }
    }

    /** Appends a string and its terminator. */
    method AppendText(text: string)
      requires Valid()
      modifies this`blocks, this`freeBlocks, this`start, this`ptr, this`end, Memory()
      ensures Valid() && Current() == old(Current()) + text + "\0" && blocks != []
      ensures fresh(Memory() - old(Memory()))
    {
      AppendChars(text, |text|);
      assert text[..|text|] == text;
      AppendChar('\0');
    }

    /** poolCopyString: appends a string and its terminator and finishes it. */
    method CopyString(text: string) returns (f: Str)
      requires Valid()
      modifies this`blocks, this`freeBlocks, this`start, this`ptr, this`end, this`finished, Memory()
      ensures Valid() && Current() == "" && fresh(Memory() - old(Memory()))
      ensures f.text == old(Current()) + text + "\0" && finished == old(finished) + [f] && Kept(f)
    {
      AppendText(text);
      f := Finish();
    }

    /** poolCopyStringN: appends n characters, no terminator, and finishes the string. */
    method CopyStringN(text: string, n: nat) returns (f: Str)
      requires Valid() && n <= |text|
      modifies this`blocks, this`freeBlocks, this`start, this`ptr, this`end, this`finished, Memory()
      ensures Valid() && Current() == "" && fresh(Memory() - old(Memory()))
      ensures f.text == old(Current()) + text[..n] && finished == old(finished) + [f] && Kept(f)
    {
      if blocks == [] {
        Grow();
      }
      AppendChars(text, n);
      f := Finish();
    }

    /** poolStoreString: appends a string and its terminator. */
    method StoreString(text: string)
      requires Valid()
      modifies this`blocks, this`freeBlocks, this`start, this`ptr, this`end, Memory()
      ensures Valid() && Current() == old(Current()) + text + ['\0']
      ensures fresh(Memory() - old(Memory()))
    {
      Append(text);
      if ptr == end {
        Grow();
      }
      Put('\0');
    }

    /** poolClear: all blocks become free and all strings are given up. */
    method Clear()
      requires Valid()
      modifies this
      ensures Valid() && finished == [] && Current() == "" && Memory() == old(Memory())
    {
      if freeBlocks == [] {
        freeBlocks := blocks;
      } else {
        var p := blocks;
        while p != []
          modifies this`freeBlocks
          invariant Separate(p, freeBlocks) && Kin(p, freeBlocks) == old(Memory())
          decreases |p|
        {
          SeparateMoved(p, freeBlocks);
          freeBlocks, p := [p[0]] + freeBlocks, p[1..];
        }
      }
      blocks, finished := [], [];
      start, ptr, end := 0, 0, 0;
    }
  }
}
