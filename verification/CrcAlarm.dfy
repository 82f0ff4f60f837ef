/** The alarm-driven checksum of src/RVLFaceLib/RFL_Database.c: the one-shot loop cut into steps, one
    per timer alarm, over the database in memory. */
module CrcAlarm {
  import opened Crc

  lemma OneByte(data: U8)
    ensures Bits([data]) == MsbBits(data, 8)
  {
    assert [data][1..] == [];
    assert Bits([data]) == MsbBits(data, 8) + Bits([]);
  }

  lemma NextByte(read: seq<U8>, data: U8)
    ensures Check(read + [data]) == Run(MsbBits(data, 8), Check(read))
  {
    BitsAppend(read, [data]);
    OneByte(data);
    RunAppend(Bits(read), MsbBits(data, 8), 0);
  }

  /** `RFLiCRCInfo` and the buffer it walks. The pointer `current` is the index `count`. The alarm and
      the callback are fields: whether one is set, how often the other ran, with what, and what the buffer
      held at that moment. */
  class Checksum {
    const head: array<U8>
    var count: nat
    var crc: U16
    var armed: bool
    var calls: nat
    var reported: U16
    ghost var seen: seq<U8>

    constructor (buffer: array<U8>)
      ensures head == buffer && !armed && calls == 0
    {
      head := buffer;
      count, crc, armed, calls, reported, seen := 0, 0, false, 0, 0, [];
    }

    /** Between alarms the register holds the checksum of what has been read. */
    ghost predicate Running()
      reads this, head
    {
      armed && count <= head.Length && crc == Check(head[..count])
    }

    /** `RFLiCheckHeaderCRCAsync`. */
    method StartCheck()
      modifies this
      ensures Running() && count == 0 && crc == 0 && calls == old(calls)
    {
      count, crc := 0, 0;
      armed := true;
    }

    /** `RFLiCreateHeaderCRCAsync`: the checksum field, the last two bytes, is cleared first. */
    method StartCreate()
      requires head.Length >= 2
      modifies this, head
      ensures Running() && count == 0 && calls == old(calls)
      ensures head[..] == old(head[..head.Length - 2]) + [0, 0]
    {
      head[head.Length - 2], head[head.Length - 1] := 0, 0;
      StartCheck();
    }

    /** The loop that both alarm handlers share: at most `step` bytes, then the alarm is set again. */
    method Chunk(step: nat) returns (finished: bool)
      requires step > 0 && Running()
      modifies this
      ensures finished <==> old(head.Length - count) <= step
      ensures count == (if finished then head.Length else old(count) + step)
      ensures crc == Check(head[..count]) && armed == !finished
      ensures calls == old(calls) && reported == old(reported)
    {
      var curCount := 0;
      while count < head.Length
        invariant old(count) <= count <= head.Length && curCount == count - old(count) <= step
        invariant crc == Check(head[..count])
        invariant armed && calls == old(calls) && reported == old(reported)
      {
        var data := head[count];
        if curCount >= step {
          return false;
        }
        NextByte(head[..count], data);
        assert head[..count + 1] == head[..count] + [data];
        crc := FeedByte(crc, data);
        count := count + 1;
        curCount := curCount + 1;
      }
      armed := false;
      finished := true;
    }

    /** `alarmCheckCb_`. */
    method AlarmCheck(step: nat)
      requires step > 0 && Running()
      modifies this
      ensures old(head.Length - count) > step ==>
                Running() && count == old(count) + step && calls == old(calls)
      ensures old(head.Length - count) <= step ==>
                !armed && calls == old(calls) + 1 && reported == Check(head[..]) && seen == head[..]
    {
      var finished := Chunk(step);
      if finished {
        assert head[..head.Length] == head[..];
        calls, reported, seen := calls + 1, crc, head[..];
      }
    }

    /** `alarmCreateCb_`: the callback runs first, then the checksum is stored, high byte first. */
    method AlarmCreate(step: nat)
      requires step > 0 && Running() && head.Length >= 2
      modifies this, head
      ensures old(head.Length - count) > step ==>
                Running() && count == old(count) + step && calls == old(calls) && head[..] == old(head[..])
      ensures old(head.Length - count) <= step ==>
                && !armed && calls == old(calls) + 1 && seen == old(head[..]) && reported == Check(seen)
                && head[..] == old(head[..head.Length - 2]) + [reported / 0x100, reported % 0x100]
    {
      var finished := Chunk(step);
      if finished {
        assert head[..head.Length] == head[..];
        calls, reported, seen := calls + 1, crc, head[..];
        head[head.Length - 2], head[head.Length - 1] := crc / 0x100, crc % 0x100;
      }
    }

    /** Every run of the check: finitely many alarms, one callback, with the one-shot checksum. */
    method RunCheck(step: nat) returns (alarms: nat)
      requires step > 0
      modifies this
      ensures !armed && calls == old(calls) + 1 && reported == Check(head[..]) && IsRemainder(head[..], reported)
      ensures step * (alarms - 1) < head.Length <= step * alarms || (head.Length == 0 && alarms == 1)
    {
      hide Check, IsRemainder;
      StartCheck();
      alarms := 0;
      while armed
        invariant armed ==> Running() && calls == old(calls) && count == step * alarms
        invariant armed ==> count < head.Length || count == 0 == alarms
        invariant !armed ==> calls == old(calls) + 1 && reported == Check(head[..])
        invariant !armed ==> step * (alarms - 1) < head.Length <= step * alarms || (head.Length == 0 && alarms == 1)
        decreases armed, head.Length - count
      {
        AlarmCheck(step);
        alarms := alarms + 1;
      }
      CheckIsRemainder(head[..], reported);
    }

    /** Every run of the creation: the header it leaves passes the boot check. The callback comes before the
        checksum is stored: it sees the field still zero, and the header it sees passes the check only if its
        checksum happens to be zero. */
    method RunCreate(step: nat)
      requires step > 0 && head.Length >= 2
      modifies this, head
      ensures !armed && calls == old(calls) + 1
      ensures head[..head.Length - 2] == old(head[..head.Length - 2])
      ensures Check(head[..]) == 0 && IsRemainder(head[..], 0)
      ensures seen == old(head[..head.Length - 2]) + [0, 0] && reported == Check(seen) && IsRemainder(seen, reported)
      ensures Check(seen) == 0 <==> seen == head[..]
    {
      hide IsRemainder;
      ghost var data := head[..head.Length - 2];
      StartCreate();
      while armed
        invariant armed ==> Running() && calls == old(calls) && head[..] == data + [0, 0]
        invariant !armed ==> calls == old(calls) + 1 && seen == data + [0, 0] && reported == Check(seen)
        invariant !armed ==> head[..] == data + [reported / 0x100, reported % 0x100]
        decreases armed, head.Length - count
      {
        AlarmCreate(step);
      }
      StoredChecksumPasses(data, reported);
      CheckIsRemainder(head[..], 0);
      CheckIsRemainder(seen, reported);
      ghost var n := |data|;
      assert seen[n] == seen[n + 1] == 0 && head[..][n] == reported / 0x100 && head[..][n + 1] == reported % 0x100;
    }
  }
}
