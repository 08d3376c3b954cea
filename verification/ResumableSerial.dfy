/** readBytesWithBuffer as it runs: two stream-backed Serial objects whose fields are updated in place. */
module ResumableSerial {
  import opened Bytes
  import opened ResumableRead

  class Serial {
    var contents: seq<byte>      // everything on the stream, read or not; writes go to its end
    var readPosition: nat
    var failed: bool             // a read came up short and the stream has not been cleared since
    var nextReadOffset: nat
    var pushedReadBuffer: bool
    var currentReadBuffer: seq<byte>
    var sizeMismatch: bool
    var lastSizeMismatch: bool
    var lastBytesRead: nat
    var readEof: bool
    var readEmpty: bool

    ghost predicate Valid()
      reads this
    {
      readPosition <= |contents|
    }

    /** Between calls nothing is half done. */
    ghost predicate Settled()
      reads this
    {
      Valid() && nextReadOffset == 0 && !pushedReadBuffer && currentReadBuffer == []
    }

    constructor (contents: seq<byte>)
      ensures Settled() && this.contents == contents && readPosition == 0 && !failed
    {
      this.contents := contents;
      readPosition, failed, nextReadOffset := 0, false, 0;
      pushedReadBuffer, currentReadBuffer := false, [];
      sizeMismatch, lastSizeMismatch, lastBytesRead := false, false, 0;
      readEof, readEmpty := false, false;
    }

    method GetReadPosition() returns (position: int)
      ensures position == if failed then -1 else readPosition
    {
      position := if failed then -1 else readPosition;
    }

    method SetReadPosition(index: nat)
      requires index <= |contents|
      modifies this`readPosition
      ensures readPosition == index
    {
      readPosition := index;
    }

    method ClearRead()
      modifies this`failed, this`sizeMismatch, this`lastSizeMismatch
      ensures !failed && !sizeMismatch && !lastSizeMismatch
    {
      failed := false;
      lastSizeMismatch := false;
      sizeMismatch := false;
    }

    method WriteBytes(src: seq<byte>)
      modifies this`contents
      ensures contents == old(contents) + src
    {
      contents := contents + src;
    }

    method PushByteReadBuffer()
      modifies this`currentReadBuffer, this`pushedReadBuffer
      ensures currentReadBuffer == [] && pushedReadBuffer
    {
      currentReadBuffer := [];
      pushedReadBuffer := true;
    }

    method PushReadBytes(data: seq<byte>, expected: nat)
      modifies this`currentReadBuffer, this`sizeMismatch
      ensures currentReadBuffer == old(currentReadBuffer) + if pushedReadBuffer then data else []
      ensures sizeMismatch == (old(sizeMismatch) || |data| != expected)
    {
      if |data| != expected { sizeMismatch := true; }
      if pushedReadBuffer { currentReadBuffer := currentReadBuffer + data; }
    }

    method PopByteReadBuffer()
      modifies this`currentReadBuffer, this`pushedReadBuffer
      ensures !pushedReadBuffer && (old(pushedReadBuffer) ==> currentReadBuffer == [])
    {
      if !pushedReadBuffer { return; }
      pushedReadBuffer := false;
      currentReadBuffer := [];
    }

    /** istream::read: nothing from a failed stream; coming up short fails the stream. */
    method StreamRead(dest: array<byte>, to: nat, wanted: nat) returns (got: nat)
      requires Valid() && to + wanted <= dest.Length
      modifies this`readPosition, this`failed, dest
      ensures Valid()
      ensures got == if old(failed) then 0 else Min(wanted, |contents| - old(readPosition))
      ensures readPosition == old(readPosition) + got && failed == (old(failed) || got < wanted)
      ensures dest[..] == Splice(old(dest[..]), to, contents[old(readPosition)..old(readPosition) + got])
    {
      hide Splice;
      SpliceEmpty(dest[..], to);
      got := 0;
      assert contents[readPosition..readPosition] == [];
      if failed { return; }
      while got < wanted && readPosition < |contents|
        invariant Valid() && got <= wanted && readPosition == old(readPosition) + got && !failed
        invariant dest[..] == Splice(old(dest[..]), to, contents[old(readPosition)..readPosition])
        decreases wanted - got
      {
        SpliceOne(old(dest[..]), to, contents[old(readPosition)..readPosition], contents[readPosition]);
        assert contents[old(readPosition)..readPosition] + [contents[readPosition]] ==
               contents[old(readPosition)..readPosition + 1];
        dest[to + got] := contents[readPosition];
        got, readPosition := got + 1, readPosition + 1;
      }
      if got < wanted { failed := true; }
    }

    /** readBytes on a stream without bits: fills dest from the pending offset on. `avail` is what the stream's buffer
        reports as available after the read. */
    method ReadBytes(dest: array<byte>, size: nat, avail: int) returns (got: nat)
      requires Valid() && nextReadOffset <= size <= dest.Length
      modifies this, dest
      ensures Valid() && nextReadOffset == 0 && contents == old(contents)
      ensures got == if old(failed) then 0 else Min(size - old(nextReadOffset), |contents| - old(readPosition))
      ensures readPosition == old(readPosition) + got && failed == (old(failed) || got < size - old(nextReadOffset))
      ensures dest[..] == Splice(old(dest[..]), old(nextReadOffset), contents[old(readPosition)..readPosition])
      ensures pushedReadBuffer == old(pushedReadBuffer)
      ensures currentReadBuffer == old(currentReadBuffer) +
                                   if pushedReadBuffer then contents[old(readPosition)..readPosition] else []
      ensures sizeMismatch == (old(sizeMismatch) || got < size - old(nextReadOffset)) && lastBytesRead == got
      ensures var short := got < size - old(nextReadOffset);
              && readEof == ((short && avail == -1) || (old(readEof) && (got == 0 || short) && avail == 0))
              && readEmpty == if short && avail == -1 then old(readEmpty) else (got == 0 || short) && avail == 0
    {
      hide Splice;
      var reading := size - nextReadOffset;
      got := StreamRead(dest, nextReadOffset, reading);
      if got != reading { sizeMismatch := true; }
      ReadBackSplice(old(dest[..]), nextReadOffset, contents[old(readPosition)..readPosition]);
      PushReadBytes(dest[nextReadOffset..nextReadOffset + got], reading);
      if got != reading && avail == -1 {
        readEof := true;
      } else if (got == 0 || got != reading) && avail == 0 {
        readEmpty := true;
      } else {
        readEmpty := false;
        readEof := false;
      }
      if nextReadOffset != 0 { nextReadOffset := 0; }
      lastBytesRead := got;
    }

    /** The second half of a call: the rest from the main stream, appended to the replay buffer as it is read. */
    method ReadFromMain(dest: array<byte>, size: nat, bufferSerial: Serial, position: nat, avail: int)
        returns (got: nat)
      requires this != bufferSerial && Valid() && bufferSerial.Settled()
      requires nextReadOffset <= size <= dest.Length && position <= |bufferSerial.contents|
      modifies this, bufferSerial, dest
      ensures Settled() && bufferSerial.Settled() && !bufferSerial.failed && contents == old(contents)
      ensures got == if old(failed) then 0 else Min(size - old(nextReadOffset), |contents| - old(readPosition))
      ensures readPosition == old(readPosition) + got
      ensures failed == (old(failed) || got < size - old(nextReadOffset))
      ensures var read := contents[old(readPosition)..readPosition];
              && dest[..] == Splice(old(dest[..]), old(nextReadOffset), read)
              && bufferSerial.contents == old(bufferSerial.contents) + read
      ensures bufferSerial.readPosition == position + got
      ensures sizeMismatch == (old(sizeMismatch) || got < size - old(nextReadOffset))
    {
      hide Splice;
      PushByteReadBuffer();
      got := ReadBytes(dest, size, avail);
      var popped := currentReadBuffer;
      assert popped == contents[old(readPosition)..readPosition];
      bufferSerial.ClearRead();
      if popped != [] {
        bufferSerial.WriteBytes(popped);
      }
      bufferSerial.SetReadPosition(position + |popped|);
      PopByteReadBuffer();
    }

    /** The bytes delivered and the state of both streams are those of one Step. */
    method ReadBytesWithBuffer(dest: array<byte>, size: nat, bufferSerial: Serial, bufferAvail: int, mainAvail: int)
        returns (count: nat)
      requires this != bufferSerial && Settled() && bufferSerial.Settled() && !bufferSerial.failed
      requires size <= dest.Length
      modifies this, bufferSerial, dest
      ensures Settled() && bufferSerial.Settled() && !bufferSerial.failed
      ensures var before := Pair(old(bufferSerial.contents), old(bufferSerial.readPosition),
                                 old(contents[readPosition..]), old(failed));
              && Step(before, size).1 == Pair(bufferSerial.contents, bufferSerial.readPosition,
                                              contents[readPosition..], failed)
              && count == |Step(before, size).0|
              && dest[..] == Splice(old(dest[..]), 0, Step(before, size).0)
              && sizeMismatch == if 0 < size <= |before.replay| - before.at then false
                                 else old(sizeMismatch) || count < size
      ensures contents == old(contents)
    {
      hide Splice, Step;
      ghost var start := Pair(bufferSerial.contents, bufferSerial.readPosition, contents[readPosition..], failed);
      var bufferBegin := bufferSerial.GetReadPosition();
      var bufferRead := bufferSerial.ReadBytes(dest, size, bufferAvail);
      ghost var again := start.replay[start.at..start.at + bufferRead];
      assert dest[..] == Splice(old(dest[..]), 0, again);
      if bufferRead != 0 {
        if bufferRead == size {
          sizeMismatch := false;
          StepWithinReplay(start, size);
          return bufferRead;
        }
        nextReadOffset := bufferRead;
      }
      var mainRead := ReadFromMain(dest, size, bufferSerial, bufferBegin + bufferRead, mainAvail);
      Remainder(old(contents), old(readPosition), mainRead);
      CallIsStep(start, size, bufferRead, mainRead);
      SpliceTwice(old(dest[..]), 0, again, start.main[..mainRead]);
      return bufferRead + mainRead;
    }
  }

  lemma Remainder(contents: seq<byte>, from: nat, got: nat)
    requires from + got <= |contents|
    ensures contents[from..][..got] == contents[from..from + got] && contents[from..][got..] == contents[from + got..]
  {
  }

  /** The part of a call after the replay buffer came up short, or was asked for nothing. */
  lemma CallIsStep(s: Pair, size: nat, again: nat, got: nat)
    requires s.Valid() && again == Min(size, |s.replay| - s.at) && (again < size || size == 0)
    requires got == if s.mainFailed then 0 else Min(size - again, |s.main|)
    ensures Step(s, size) == (s.replay[s.at..s.at + again] + s.main[..got],
                              Pair(s.replay + s.main[..got], s.at + again + got, s.main[got..],
                                   s.mainFailed || got < size - again))
  {
    hide Step;
    if size == 0 {
      StepWithinReplay(s, 0);
      assert s.main[..0] == [] && s.replay + [] == s.replay && s.main[0..] == s.main;
      assert s.replay[s.at..s.at] + s.main[..0] == s.replay[s.at..s.at + 0];
    } else {
      StepPastReplay(s, size);
      assert s.replay[s.at..s.at + again] == s.replay[s.at..];
    }
  }

  lemma ReadBackSplice(dest: seq<byte>, to: nat, data: seq<byte>)
    requires to + |data| <= |dest|
    ensures |Splice(dest, to, data)| == |dest| && Splice(dest, to, data)[to..to + |data|] == data
  {
  }
}
