/** DtsAddH264SCode on its buffers, against the function Convert. */
module AvcConverter {
  import opened Bytes
  import opened AvcStartCode

  datatype Status = Success | Error | IoXferError

  /** How a turn of the loop ends: again, all data used, a return, or the buffer full. */
  datatype Next = More | Done | Short | Off | Full

  const BRCM_START_CODE_SIZE: nat := 4

  function Wrap32(x: int): nat { x % 0x1_0000_0000 }

  class PesConvParams {
    const startCodeSz: nat
    var startCodeDataSize: nat
    var pendBuff: array?<Byte>
    var pendBufferSize: nat
    var addStartCode: bool

    ghost predicate Valid()
      reads this
    {
      && 1 <= startCodeSz <= 4
      && pendBufferSize == if pendBuff == null then 0 else pendBuff.Length
    }

    constructor (sz: nat)
      requires 1 <= sz <= 4
      ensures Valid() && startCodeSz == sz && startCodeDataSize == 0 && addStartCode && pendBuff == null
    {
      startCodeSz, startCodeDataSize := sz, 0;
      pendBuff, pendBufferSize, addStartCode := null, 0, true;
    }

    /** A pending buffer of twice the data, at least 1024 bytes. */
    method EnsurePending(dataSize: nat)
      requires Valid()
      modifies this`pendBuff, this`pendBufferSize
      ensures Valid() && (pendBuff != old(pendBuff) ==> fresh(pendBuff)) && pendBufferSize >= Wrap32(dataSize * 2)
    {
      if pendBufferSize < Wrap32(dataSize * 2) {
        pendBufferSize := Wrap32(dataSize * 2);
        if pendBufferSize < 1024 {
          pendBufferSize := 1024;
        }
        pendBuff := new Byte[pendBufferSize];
      }
    }

    /** memcpy to the pending buffer at `at`. */
    method Append(src: array<Byte>, pos: nat, len: nat, at: nat)
      requires Valid() && src != pendBuff && pos + len <= src.Length && at + len <= pendBufferSize
      modifies pendBuff
      ensures Valid() && Pending(at + len) == old(Pending(at)) + src[pos..pos + len]
    {
      if pendBuff != null {
        var p := pendBuff;
        for i := 0 to len
          invariant p[..at + i] == old(Pending(at)) + src[pos..pos + i]
        {
          p[at + i] := src[pos + i];
        }
      }
    }

    method AppendStart(at: nat)
      requires Valid() && at + BRCM_START_CODE_SIZE <= pendBufferSize
      modifies pendBuff
      ensures Valid() && Pending(at + BRCM_START_CODE_SIZE) == old(Pending(at)) + START
    {
      var p := pendBuff;
      for i := 0 to BRCM_START_CODE_SIZE - 1
        invariant p[..at + i] == old(Pending(at)) + START[..i]
      {
        p[at + i] := 0;
      }
      p[at + 3] := 1;
      assert p[..at + 4] == p[..at + 3] + [1];
    }

    ghost function Pending(size: nat): seq<Byte>
      requires Valid() && size <= pendBufferSize
      reads this, pendBuff
    {
      if pendBuff == null then [] else pendBuff[..size]
    }

    /** The size loop. */
    method ReadSize(data: array<Byte>, pos: nat)
      requires pos + startCodeSz <= data.Length && startCodeDataSize == 0
      modifies this`startCodeDataSize
      ensures startCodeDataSize == BigEndian(data[pos..pos + startCodeSz])
    {
      for i := 0 to startCodeSz
        invariant startCodeDataSize == BigEndian(data[pos..pos + i])
      {
        assert data[pos..pos + i + 1][..i] == data[pos..pos + i];
        startCodeDataSize := startCodeDataSize * 256;
        startCodeDataSize := startCodeDataSize + data[pos + i];
      }
    }

    /** What is still missing of a unit begun in an earlier call goes out first.  `done`
        when the chunk ends with it. */
    method TakeCarried(data: array<Byte>, pos: nat, actual: nat) returns (ok: bool, done: bool, pos': nat, actual': nat)
      requires Valid() && data != pendBuff && pos <= data.Length && actual <= pendBufferSize
      modifies this`startCodeDataSize, pendBuff
      ensures Valid() && pos <= pos' <= data.Length
      ensures !ok ==> startCodeDataSize == 0 && actual + (data.Length - pos) > pendBufferSize
      ensures ok ==> actual' <= pendBufferSize && actual' - actual == pos' - pos
      ensures ok && !done ==> startCodeDataSize == 0 && (old(startCodeDataSize) != 0 ==> pos < pos')
      ensures ok ==>
                old(Ahead(data, pos, actual))
                == if done then Converted(Pending(actual'), startCodeDataSize) else Ahead(data, pos', actual')
    {
      ok, done, pos', actual' := true, false, pos, actual;
      if startCodeDataSize != 0 {
        var dataRemained := data.Length - pos;
        var size := Min(startCodeDataSize, dataRemained);
        done := startCodeDataSize >= dataRemained;
        actual' := actual + size;
        if actual' > pendBufferSize {
          startCodeDataSize := 0;
          return false, false, pos, actual;
        }
        Append(data, pos, size, actual);
        pos' := pos + size;
        startCodeDataSize := startCodeDataSize - size;
        assert data[pos..][..size] == data[pos..pos + size] && data[pos..][size..] == data[pos'..];
        BehindTwice(old(Pending(actual)), data[pos..pos + size], Convert(0, data[pos'..], data.Length, startCodeSz));
      }
    }

    /** The length of the next unit, and a start code in its place when it is below the
        size of the chunk; a length of 1 switches the conversion off. */
    method TakeLength(data: array<Byte>, pos: nat, actual: nat) returns (ok: bool, pos': nat, actual': nat)
      requires Valid() && data != pendBuff && pos + startCodeSz < data.Length
      requires actual <= pendBufferSize && startCodeDataSize == 0
      modifies this`startCodeDataSize, pendBuff
      ensures Valid() && pos <= pos' <= data.Length && actual' <= pendBufferSize
      ensures !ok ==> startCodeDataSize == 0 && actual + BRCM_START_CODE_SIZE > pendBufferSize
      ensures ok && startCodeDataSize == 1 ==> old(Ahead(data, pos, actual)) == AlreadyByteStream
      ensures ok && startCodeDataSize != 1 ==> old(Ahead(data, pos, actual)) == Ahead(data, pos', actual')
      ensures ok && startCodeDataSize != 1 ==>
        if pos' == pos then actual' == actual && startCodeDataSize != 0
        else pos' == pos + startCodeSz && actual' == actual + BRCM_START_CODE_SIZE
    {
      ok, pos', actual' := true, pos, actual;
      ReadSize(data, pos);
      assert data[pos..][..startCodeSz] == data[pos..pos + startCodeSz];
      if startCodeDataSize != 1 && startCodeDataSize < data.Length {
        actual' := actual + BRCM_START_CODE_SIZE;
        if actual' > pendBufferSize {
          startCodeDataSize := 0;
          return false, pos, actual;
        }
        AppendStart(actual);
        pos' := pos + startCodeSz;
        assert data[pos..][startCodeSz..] == data[pos'..];
        BehindTwice(old(Pending(actual)), START, Convert(startCodeDataSize, data[pos'..], data.Length, startCodeSz));
      }
    }

    /** What the call is going to make of the chunk, seen in the middle of it. */
    ghost function Ahead(data: array<Byte>, pos: nat, actual: nat): Outcome
      requires Valid() && pos <= data.Length && actual <= pendBufferSize
      reads this, pendBuff, data
    {
      Behind(Pending(actual), Convert(startCodeDataSize, data[pos..], data.Length, startCodeSz))
    }

    /** Room for the worst case: every remaining byte becomes two. */
    predicate Roomy(n: nat, pos: nat, actual: nat)
      reads this
    {
      startCodeSz >= 2 && pos <= n && actual + 2 * (n - pos) <= pendBufferSize
    }

    /** One turn of the loop. */
    method Turn(data: array<Byte>, pos: nat, actual: nat) returns (next: Next, pos': nat, actual': nat)
      requires Valid() && data != pendBuff && pos <= data.Length && actual <= pendBufferSize
      modifies this`startCodeDataSize, pendBuff
      ensures Valid() && pos <= pos' <= data.Length && actual' <= pendBufferSize
      ensures old(Roomy(data.Length, pos, actual)) ==> !next.Full? && Roomy(data.Length, pos', actual')
      ensures match next
              case More => old(Ahead(data, pos, actual)) == Ahead(data, pos', actual')
                           && (pos < pos' || (old(startCodeDataSize) == 0 && startCodeDataSize != 0))
              case Done => old(Ahead(data, pos, actual)) == Converted(Pending(actual'), startCodeDataSize)
              case Short => old(Ahead(data, pos, actual)) == TooShort && startCodeDataSize == 0
              case Off => old(Ahead(data, pos, actual)) == AlreadyByteStream
              case Full => true
    {
      var ok, done;
      ok, done, pos', actual' := TakeCarried(data, pos, actual);
      if !ok {
        return Full, pos, actual;
      }
      if done {
        return Done, pos', actual';
      }
      if data.Length - pos' <= startCodeSz {
        return Short, pos', actual';
      }
      var pos1, actual1 := pos', actual';
      ok, pos', actual' := TakeLength(data, pos1, actual1);
      next := if !ok then Full else if startCodeDataSize == 1 then Off else More;
      if next.Off? {
        pos', actual' := pos1, actual1;
      }
    }

    method AddH264SCode(data: array<Byte>) returns (sts: Status, buffer: array?<Byte>, size: nat)
      requires Valid() && data != pendBuff
      modifies this, pendBuff
      ensures Valid()
      ensures sts.Error? ==> startCodeSz < 2 || Wrap32(data.Length * 2) < data.Length * 2
      ensures !sts.Error? ==>
        match old(Convert(startCodeDataSize, data[..], data.Length, startCodeSz))
        case Converted(out, carry) =>
          sts.Success? && buffer == pendBuff && size <= pendBufferSize && Pending(size) == out
          && startCodeDataSize == carry && addStartCode == old(addStartCode)
        case AlreadyByteStream =>
          sts.Success? && buffer == data && size == data.Length && startCodeDataSize == 0 && !addStartCode
        case TooShort => sts.IoXferError? && startCodeDataSize == 0 && addStartCode == old(addStartCode)
    {
      var n := data.Length;
      ghost var goal := Convert(startCodeDataSize, data[..], n, startCodeSz);
      EnsurePending(n);
      assert data[0..] == data[..];
      var pos: nat, actual: nat := 0, 0;
      BehindNothing(goal);
      var next := More;
      while next.More?
        invariant Valid() && data != pendBuff && (pendBuff == old(pendBuff) || fresh(pendBuff))
        invariant pos <= n && actual <= pendBufferSize && addStartCode == old(addStartCode)
        invariant startCodeSz >= 2 && Wrap32(n * 2) == n * 2 ==> Roomy(n, pos, actual) && !next.Full?
        invariant match next
                  case More => Ahead(data, pos, actual) == goal
                  case Done => Converted(Pending(actual), startCodeDataSize) == goal
                  case Short => TooShort == goal && startCodeDataSize == 0
                  case Off => AlreadyByteStream == goal
                  case Full => true
        decreases next.More?, n - pos, if startCodeDataSize == 0 then 1 else 0
      {
        next, pos, actual := Turn(data, pos, actual);
      }
      match next {
        case Done =>
          return Success, pendBuff, actual;
        case Short =>
          return IoXferError, data, n;
        case Off =>
          startCodeDataSize, addStartCode := 0, false;
          pendBuff, pendBufferSize := null, 0;
          return Success, data, n;
        case Full =>
          return Error, data, n;
      }
    }
  }
}
