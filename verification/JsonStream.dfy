/** The byte stream of load.c: one decoded character of buffer, one character of pushback. */
module JsonStream {
  import opened Bytes
  import opened Utf8

  const OK := 0
  const EOF := -1
  const ERROR := -2

  /** One plus the number of newlines. */
  function Line(s: seq<byte>): int {
    if s == [] then 1 else Line(s[..|s| - 1]) + if s[|s| - 1] == 10 then 1 else 0
  }

  /** The number of characters begun since the last newline. */
  function Column(s: seq<byte>): int {
    if s == [] || s[|s| - 1] == 10 then 0
    else Column(s[..|s| - 1]) + if CheckFirst(s[|s| - 1]) > 0 then 1 else 0
  }

  lemma CountStep(s: seq<byte>, b: byte)
    ensures Line(s + [b]) == Line(s) + if b == 10 then 1 else 0
    ensures Column(s + [b]) == if b == 10 then 0 else Column(s) + if CheckFirst(b) > 0 then 1 else 0
  {
    assert (s + [b])[..|s|] == s;
  }

  class Stream {
    const data: seq<byte>      // the C string, without its terminating NUL
    const buffer: array<byte>  // char buffer[5]
    var dataPos: nat
    var bufferPos: nat
    var state: int
    var line: int
    var column: int
    var lastColumn: int
    var position: nat
    ghost var fill: nat        // where the buffer's terminating NUL stands
    ghost var canUnget: bool   // the last operation was a get that returned a byte

    /** All the bytes the stream will ever deliver. */
    ghost function Input(): seq<byte> { ValidPrefix(data) }

    ghost function Delivered(): seq<byte>
      reads this
      requires position <= |Input()|
    {
      Input()[..position]
    }

    ghost predicate Loaded()
      reads this, buffer
    {
      && bufferPos <= fill <= 4 && fill <= dataPos <= |data| && buffer.Length == 5
      && buffer[..fill] == data[dataPos - fill..dataPos] && buffer[fill] == 0
      && (forall i :: 1 <= i < fill ==> Continuation(buffer[i]))
      && dataPos <= |Input()| && Input() == data[..dataPos] + ValidPrefix(data[dataPos..])
      && position + (fill - bufferPos) == dataPos
    }

    ghost predicate Counted()
      reads this
      requires position <= |Input()|
    {
      && line == Line(Delivered()) && column == Column(Delivered())
      && (canUnget ==> position > 0 && (Input()[position - 1] == 10 ==> lastColumn == Column(Input()[..position - 1])))
    }

    /**
      * Between calls the buffer holds the undelivered rest of the last character read, and line,
      * column and position describe exactly the bytes delivered.
      */
    ghost predicate Valid()
      reads this, buffer
    {
      && buffer.Length == 5 && dataPos <= |data| && 0 !in data
      && position <= |Input()|
      && (state == OK || state == EOF || state == ERROR)
      && (state == OK ==> Loaded())
      && (state != OK ==> position == |Input()| && (state == EOF <==> Input() == data))
      && (canUnget ==> state == OK && bufferPos > 0)
      && Counted()
    }

    constructor (text: seq<byte>)
      requires 0 !in text
      ensures Valid() && data == text && position == 0 && fresh(buffer)
    {
      data := text;
      buffer := new byte[5](_ => 0);
      dataPos, bufferPos, position := 0, 0, 0;
      state := OK;
      line, column, lastColumn := 1, 0, 0;
      fill, canUnget := 0, false;
      new;
      hide ValidPrefix;
      assert data[0..] == data && [] + ValidPrefix(data) == ValidPrefix(data);
      assert ValidPrefix(data)[..0] == [];
    }

    /** string_get: the next byte of the C string, or EOF at its end. */
    method StringGet() returns (c: int)
      requires dataPos <= |data|
      modifies `dataPos
      ensures dataPos <= |data|
      ensures old(dataPos) == |data| ==> c == EOF && dataPos == old(dataPos)
      ensures old(dataPos) < |data| ==> c == data[old(dataPos)] && dataPos == old(dataPos) + 1
    {
      if dataPos == |data| {
        c := EOF;
      } else {
        c := data[dataPos];
        dataPos := dataPos + 1;
      }
    }

    /** Reads the continuation bytes of a character; EOF is stored as the char -1. */
    method ReadContinuation(count: nat)
      requires 2 <= count <= 4 && buffer.Length == 5 && 1 <= dataPos <= |data| && buffer[0] == data[dataPos - 1]
      modifies `dataPos, buffer
      ensures dataPos <= |data| && old(dataPos) <= dataPos <= old(dataPos) - 1 + count
      ensures dataPos - (old(dataPos) - 1) == count ==> buffer[..count] == data[old(dataPos) - 1..dataPos]
      ensures dataPos - (old(dataPos) - 1) < count ==> dataPos == |data| && buffer[count - 1] == 255
    {
      ghost var p := dataPos - 1;
      var i := 1;
      while i < count
        invariant 1 <= i <= count && p + 1 <= dataPos <= |data| && dataPos <= p + i
        invariant buffer[..dataPos - p] == data[p..dataPos]
        invariant dataPos < p + i ==> dataPos == |data| && buffer[i - 1] == 255
      {
        var c := StringGet();
        buffer[i] := if c == EOF then 255 else c;
        i := i + 1;
      }
    }

    /** Refills an empty buffer with the next character. */
    method Refill() returns (ok: bool)
      requires Valid() && state == OK && bufferPos == fill
      modifies `dataPos, `bufferPos, `state, `fill, `canUnget, buffer
      ensures Valid()
      ensures ok <==> position < |Input()|
      ensures ok ==> state == OK && bufferPos < fill
      ensures !ok ==> state != OK
    {
      hide ValidPrefix, First, Full, CheckFirst, Line, Column;
      ghost var p := dataPos;
      canUnget := false;
      var c := StringGet();
      if c == EOF {
        state := EOF;
        assert data[..p] == data && data[p..] == [];
        PrefixOfNothing();
        return false;
      }
      buffer[0] := c;
      bufferPos := 0;
      var count := CheckFirst(c);
      FirstByte(c);
      if 0x80 <= c <= 0xFF {
        if count == 0 {
          state := ERROR;
          BadLead(data[p..]);
          Malformed(p);
          return false;
        }
        ReadContinuation(count);
        var full, _ := CheckFull(buffer[..], count);
        CharacterRead(p, count);
        if !full {
          state := ERROR;
          Malformed(p);
          return false;
        }
        buffer[count] := 0;
      } else {
        buffer[1] := 0;
        AsciiRead(p);
      }
      fill := count;
      return true;
    }

    lemma PrefixOfNothing()
      ensures ValidPrefix([]) == []
    {
    }

    lemma FirstByte(c: byte)
      ensures c < 0x80 <==> CheckFirst(c) == 1
      ensures CheckFirst(c) <= 4
    {
    }

    lemma BadLead(s: seq<byte>)
      requires s != [] && CheckFirst(s[0]) == 0
      ensures ValidPrefix(s) == []
    {
    }

    lemma Malformed(p: nat)
      requires p < |data| && p <= |Input()|
      requires Input() == data[..p] + ValidPrefix(data[p..]) && ValidPrefix(data[p..]) == []
      ensures Input() == data[..p] && Input() != data
    {
      assert |data[..p] + []| == p;
    }

    lemma AsciiRead(p: nat)
      requires p < |data| && p <= |Input()| && Input() == data[..p] + ValidPrefix(data[p..]) && data[p] < 0x80
      ensures p + 1 <= |Input()| && Input() == data[..p + 1] + ValidPrefix(data[p + 1..])
    {
      hide First;
      FirstAscii(data[p..]);
      NextCharacter(p, 1);
    }

    /** Moving over one whole character. */
    lemma NextCharacter(p: nat, n: nat)
      requires p < |data| && p <= |Input()| && Input() == data[..p] + ValidPrefix(data[p..])
      requires First(data[p..]).Some? && First(data[p..]).value.1 == n
      ensures p + n <= |data| && p + n <= |Input()| && Input() == data[..p + n] + ValidPrefix(data[p + n..])
    {
      hide First;
      var tail := data[p..];
      assert tail[n..] == data[p + n..];
      assert ValidPrefix(tail) == tail[..n] + ValidPrefix(tail[n..]);
      assert data[..p + n] == data[..p] + tail[..n];
    }

    /** What a character just read into the buffer means for the rest of the input. */
    lemma CharacterRead(p: nat, count: nat)
      requires buffer.Length == 5 && p < dataPos <= |data| && 2 <= count <= 4 && dataPos <= p + count
      requires p <= |Input()| && Input() == data[..p] + ValidPrefix(data[p..])
      requires count == CheckFirst(data[p])
      requires dataPos == p + count ==> buffer[..count] == data[p..dataPos]
      requires dataPos < p + count ==> dataPos == |data| && buffer[count - 1] == 255
      ensures !Full(buffer[..], count) ==> ValidPrefix(data[p..]) == []
      ensures Full(buffer[..], count) ==>
        && dataPos == p + count && dataPos <= |Input()|
        && Input() == data[..dataPos] + ValidPrefix(data[dataPos..])
        && forall i :: 1 <= i < count ==> Continuation(buffer[i])
    {
      hide Payload, ValidPrefix, CheckFirst;
      var tail := data[p..];
      assert tail[0] == data[p];
      if dataPos == p + count {
        assert tail[..count] == data[p..dataPos] == buffer[..][..count];
        FullPrefix(tail, buffer[..], count);
        if Full(tail, count) {
          IsFull(tail);
          NextCharacter(p, count);
          assert forall i :: 1 <= i < count ==> buffer[..][i] == buffer[i];
        } else {
          NotFull(tail);
        }
      } else {
        NotFull(tail);
        assert !Continuation(buffer[..][count - 1]);
      }
    }

    lemma NotFull(s: seq<byte>)
      requires s != [] && CheckFirst(s[0]) >= 2 && (CheckFirst(s[0]) > |s| || !Full(s, CheckFirst(s[0])))
      ensures ValidPrefix(s) == []
    {
      hide Full, CheckFirst;
    }

    lemma IsFull(s: seq<byte>)
      requires s != [] && CheckFirst(s[0]) >= 2 && CheckFirst(s[0]) <= |s| && Full(s, CheckFirst(s[0]))
      ensures First(s).Some? && First(s).value.1 == CheckFirst(s[0])
    {
      hide Full, CheckFirst;
    }

    /** stream_get: the next byte as a signed char, or the way the stream has ended. */
    method Get() returns (c: int)
      requires Valid()
      modifies this, buffer
      ensures Valid()
      ensures old(position) < |Input()| ==>
        c == Signed(Input()[old(position)]) && position == old(position) + 1 && canUnget
      ensures old(position) == |Input()| ==>
        c == (if Input() == data then EOF else ERROR) && position == old(position)
    {
      hide ValidPrefix, Line, Column;
      canUnget := false;
      if state != OK {
        return state;
      }
      BufferHead();
      if buffer[bufferPos] == 0 {
        var ok := Refill();
        if !ok {
          return state;
        }
      }
      c := Deliver();
    }

    method Deliver() returns (c: int)
      requires Valid() && state == OK && bufferPos < fill
      modifies this
      ensures Valid() && canUnget
      ensures position == old(position) + 1 <= |Input()| && c == Signed(Input()[old(position)])
    {
      hide ValidPrefix, Line, Column, CheckFirst;
      BufferHead();
      var b := buffer[bufferPos];
      CountStep(Delivered(), b);
      assert Input()[..position + 1] == Delivered() + [b];
      bufferPos := bufferPos + 1;
      position := position + 1;
      if b == 10 {
        line := line + 1;
        lastColumn := column;
        column := 0;
      } else if CheckFirst(b) > 0 {
        column := column + 1;
      }
      canUnget := true;
      return Signed(b);
    }

    /** A NUL under the cursor means the buffer is used up, since the data holds none. */
    lemma BufferHead()
      requires Valid() && state == OK
      ensures bufferPos <= fill <= 4 && buffer.Length == 5
      ensures buffer[bufferPos] == 0 <==> bufferPos == fill
      ensures bufferPos < fill ==> position < |Input()| && buffer[bufferPos] == Input()[position]
    {
      hide ValidPrefix, Line, Column;
      if bufferPos < fill {
        assert buffer[..fill][bufferPos] == data[dataPos - fill + bufferPos];
        assert Input()[position] == data[..dataPos][position];
      }
    }

    /** stream_unget: takes back the byte just delivered, and with it line and column. */
    method Unget(c: int)
      requires Valid()
      requires c != EOF && c != ERROR ==> canUnget && c == Signed(Input()[position - 1])
      modifies this
      ensures Valid()
      ensures c == EOF || c == ERROR ==> position == old(position) && canUnget == old(canUnget)
      ensures c != EOF && c != ERROR ==> position == old(position) - 1
    {
      hide ValidPrefix, Line, Column, CheckFirst;
      if c == EOF || c == ERROR {
        return;
      }
      var b := if c < 0 then c + 256 else c;
      position := position - 1;
      CountStep(Delivered(), b);
      assert Input()[..position + 1] == Delivered() + [b];
      if c == 10 {
        line := line - 1;
        column := lastColumn;
      } else if CheckFirst(b) > 0 {
        column := column - 1;
      }
      bufferPos := bufferPos - 1;
      canUnget := false;
    }

    /** Takes the rest of the character in the buffer; none of its bytes begins a character or a line. */
    method Drain() returns (bytes: seq<byte>)
      requires Valid() && canUnget
      modifies this
      ensures Valid() && old(position) <= position <= |Input()| && bytes == Input()[old(position)..position]
      ensures forall b :: b in bytes ==> Continuation(b)
    {
      hide ValidPrefix, Valid, Continuation, Input;
      bytes := [];
      DrainStart();
      BufferHead();
      while buffer[bufferPos] != 0
        invariant Valid() && state == OK && 1 <= bufferPos <= fill <= 4 && buffer.Length == 5
        invariant old(position) <= position <= |Input()| && bytes == Input()[old(position)..position]
        invariant forall b :: b in bytes ==> Continuation(b)
        invariant buffer[bufferPos] == 0 <==> bufferPos == fill
        decreases fill - bufferPos
      {
        var b := DrainByte();
        bytes := bytes + [b];
        BufferHead();
      }
    }

    lemma DrainStart()
      requires Valid() && canUnget
      ensures state == OK && 1 <= bufferPos <= fill <= 4 && buffer.Length == 5 && position <= |Input()|
    {
    }

    method DrainByte() returns (b: byte)
      requires Valid() && state == OK && 1 <= bufferPos < fill
      modifies this
      ensures Valid() && state == OK && bufferPos == old(bufferPos) + 1 <= fill == old(fill) <= 4
      ensures position == old(position) + 1 <= |Input()| && b == Input()[old(position)] && Continuation(b)
    {
      hide ValidPrefix, Line, Column, CheckFirst;
      BufferHead();
      b := buffer[bufferPos];
      ContinuationStep(b);
      CountStep(Delivered(), b);
      assert Input()[..position + 1] == Delivered() + [b];
      canUnget := false;
      bufferPos := bufferPos + 1;
      position := position + 1;
    }

    lemma ContinuationStep(b: byte)
      requires Continuation(b)
      ensures CheckFirst(b) == 0 && b != 10
    {
    }
  }
}
