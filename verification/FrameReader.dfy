/**
  The frame reader of amqp_connection.c as it keeps its state: a fixed 8-byte header buffer, an inbound
  buffer that is either the header buffer or a page of the frame's channel pool, an offset and a target.
 */
module FrameReader {
  import opened Wire
  import opened Framing

  lemma HandleInputValid(cfg: Config, r: Reader, data: Bytes)
    requires ValidReader(cfg, r) && data != []
    ensures var s := Framing.HandleInput(cfg, r, data); !s.outcome.Fail? ==> ValidReader(cfg, s.reader)
  {
    HandleInputIsRunBytes(cfg, r, data);
    RunBytesProgress(cfg, r, data);
  }

  class InboundReader {
    const cfg: Config
    const headerBuffer: array<Byte>
    var phase: Phase
    var inbound: array<Byte>
    var offset: nat
    var target: nat

    ghost predicate Valid()
      reads this, headerBuffer, inbound
    {
      && headerBuffer.Length == HEADER_SIZE + 1
      && (phase == InBody || inbound == headerBuffer)
      && offset < target <= inbound.Length
      && ValidReader(cfg, View())
    }

    /** The bytes received so far are the buffer up to the offset; what stands behind does not matter. */
    ghost function View(): Reader
      requires offset <= inbound.Length
      reads this, inbound
    {
      Reader(phase, inbound[..offset], target)
    }

    /** `amqp_new_connection` */
    constructor (cfg: Config)
      ensures Valid() && fresh(headerBuffer) && fresh(inbound) && this.cfg == cfg && View() == NEW_READER
    {
      this.cfg := cfg;
      var buffer := new Byte[HEADER_SIZE + 1](_ => 0);
      headerBuffer, inbound := buffer, buffer;
      phase, offset, target := Initial, 0, 8;
    }

    /** `return_to_idle` */
    method ReturnToIdle()
      requires headerBuffer.Length == HEADER_SIZE + 1
      modifies this
      ensures Valid() && View() == IDLE_READER && inbound == headerBuffer
    {
      inbound, offset, target, phase := headerBuffer, 0, HEADER_SIZE, Idle;
    }

    /** `consume_data`: as much as is available and wanted. */
    method ConsumeData(data: Bytes) returns (n: nat)
      requires offset <= target <= inbound.Length
      modifies this`offset, inbound
      ensures n == Min(target - old(offset), |data|)
      ensures offset == old(offset) + n <= target
      ensures inbound[..offset] == old(inbound[..offset]) + data[..n]
    {
      n := target - offset;
      if |data| < n {
        n := |data|;
      }
      CopyIn(inbound, offset, data[..n]);
      offset := offset + n;
    }

    /**
      The header case of `amqp_handle_input`: recognises a protocol header, checks the size and moves
      the header into a page of the channel pool. `fill` is what the page holds beforehand: a recycled
      page holds anything, the very first page of a connection is zeroed.
     */
    method OpenFrame(fill: Bytes) returns (outcome: Outcome)
      requires headerBuffer.Length == HEADER_SIZE + 1 && inbound == headerBuffer
      requires (phase == Initial && offset == 8) || (phase == InHeader && offset == HEADER_SIZE)
      requires phase == Initial ==> fill == []
      modifies this
      ensures var got, buf := old(inbound[..offset]), FrameBuffer(old(phase), old(inbound[..offset]));
              if old(phase) == Initial && IsProtocolHeader(got) then
                outcome == Got(ProtocolHeader(got[4], got[5], got[6], got[7])) && Valid() && View() == IDLE_READER
              else if !SizeAllowed(cfg, buf) then outcome == Fail(BadAmqpData)
              else
                && outcome == More && phase == InBody && fresh(inbound)
                && offset == |buf| <= target == SizeOf(buf) + HEADER_SIZE + FOOTER_SIZE == inbound.Length
                && inbound[..offset] == buf
      ensures inbound == headerBuffer || fresh(inbound)
    {
      var got := inbound[..offset];
      if phase == Initial && IsProtocolHeader(got) {
        ReturnToIdle();
        return Got(ProtocolHeader(got[4], got[5], got[6], got[7]));
      }
      ghost var buf := FrameBuffer(phase, got);
      assert buf[..HEADER_SIZE] == got[..HEADER_SIZE];
      SizeStays(buf[..HEADER_SIZE], buf[HEADER_SIZE..]);
      SizeStays(got[..HEADER_SIZE], got[HEADER_SIZE..]);
      assert buf == buf[..HEADER_SIZE] + buf[HEADER_SIZE..] && got == got[..HEADER_SIZE] + got[HEADER_SIZE..];
      if SizeOf(got) >= INT32_MAX {
        return Fail(BadAmqpData);
      }
      target := SizeOf(got) + HEADER_SIZE + FOOTER_SIZE;
      if cfg.frameMax < target {
        return Fail(BadAmqpData);
      }
      var page := NewPage(target, fill, got[..HEADER_SIZE]);
      PageHolds(phase, got, page[..offset]);
      inbound := page;
      phase := InBody;
      return More;
    }

    /** The body case: check the end marker and decode. */
    method Finish() returns (outcome: Outcome)
      requires headerBuffer.Length == HEADER_SIZE + 1
      requires offset == target <= inbound.Length && target >= 8
      modifies this
      ensures outcome == DecodeFrame(cfg, old(inbound[..offset]))
      ensures !outcome.Fail? ==> Valid() && View() == IDLE_READER
      ensures inbound == old(inbound) || inbound == headerBuffer
    {
      outcome := DecodeFrame(cfg, inbound[..target]);
      if !outcome.Fail? {
        ReturnToIdle();
      }
    }

    /** Payload into an open frame. */
    method ReadPayload(data: Bytes) returns (outcome: Outcome, consumed: nat)
      requires headerBuffer.Length == HEADER_SIZE + 1 && inbound != headerBuffer
      requires phase == InBody && offset <= target <= inbound.Length && target >= 8
      modifies this, inbound
      ensures Reports(outcome, consumed, TakePayload(cfg, old(View()), data))
      ensures inbound == old(inbound) || inbound == headerBuffer
    {
      hide DecodeFrame;
      consumed := ConsumeData(data);
      if offset < target {
        return More, consumed;
      }
      DecodedIsNotMore(cfg, inbound[..offset]);
      outcome := Finish();
    }

    /** The call reports what step `s` says, and unless it failed the reader stands where `s` says. */
    ghost predicate Reports(outcome: Outcome, consumed: nat, s: Step)
      reads this, inbound
    {
      && outcome == s.outcome && consumed == s.consumed
      && (!outcome.Fail? ==> offset <= inbound.Length && View() == s.reader && target <= inbound.Length
                             && (phase == InBody || inbound == headerBuffer))
    }

    /** The switch: the phase has all the bytes it wants. */
    method Switch(data: Bytes, fill: Bytes) returns (outcome: Outcome, consumed: nat)
      requires headerBuffer.Length == HEADER_SIZE + 1 && (phase == InBody || inbound == headerBuffer)
      requires offset == target <= inbound.Length && phase != Idle
      requires target >= if phase == InHeader then HEADER_SIZE else 8
      requires (phase == Initial ==> target == 8 && fill == []) && (phase == InHeader ==> target == HEADER_SIZE)
      modifies this, inbound
      ensures Reports(outcome, consumed, Dispatch(cfg, old(phase), old(inbound[..offset]), data))
      ensures inbound == old(inbound) || inbound == headerBuffer || fresh(inbound)
    {
      hide DecodeFrame, SizeOf, SizeAllowed, TakePayload;
      ghost var got := inbound[..offset];
      consumed := 0;
      if phase == InBody {
        DecodedIsNotMore(cfg, got);
        outcome := Finish();
      } else {
        outcome := OpenFrame(fill);
        if outcome == More {
          if offset == target {
            PayloadAtOnce(cfg, View(), data);
            DecodedIsNotMore(cfg, inbound[..offset]);
          }
          outcome, consumed := ReadPayload(data);
        }
      }
    }

    /** `amqp_handle_input` */
    method HandleInput(data: Bytes, fill: Bytes) returns (outcome: Outcome, consumed: nat)
      requires Valid() && (phase == Initial ==> fill == [])
      modifies this, headerBuffer, inbound
      ensures Reports(outcome, consumed, Framing.HandleInput(cfg, old(View()), data))
      ensures !outcome.Fail? ==> Valid()
      ensures inbound == old(inbound) || inbound == headerBuffer || fresh(inbound)
    {
      hide Dispatch;
      ghost var r := View();
      if |data| == 0 {
        return More, 0;
      }
      HandleInputValid(cfg, r, data);
      if phase == Idle {
        phase := InHeader;
      }
      consumed := ConsumeData(data);
      if offset < target {
        return More, consumed;
      }
      var more;
      outcome, more := Switch(data[consumed..], fill);
      consumed := consumed + more;
    }
  }

  /** A page of the channel pool, which starts with the header; `fill` is what it held before. */
  method NewPage(size: nat, fill: Bytes, head: Bytes) returns (page: array<Byte>)
    requires |head| <= size
    ensures fresh(page) && page.Length == size && page[..|head|] == head
    ensures fill == [] ==> forall i :: |head| <= i < size ==> page[i] == 0
  {
    page := new Byte[size](i => if 0 <= i < |fill| then fill[i] else 0);
    CopyIn(page, 0, head);
  }

  lemma PageHolds(phase: Phase, got: Bytes, page: Bytes)
    requires |got| == |page| == if phase == Initial then 8 else HEADER_SIZE
    requires page[..HEADER_SIZE] == got[..HEADER_SIZE] && (phase == Initial ==> page[HEADER_SIZE] == 0)
    ensures page == FrameBuffer(phase, got)
  {
  }

  /** A frame that is complete as soon as it is opened is decoded at once. */
  lemma PayloadAtOnce(cfg: Config, r: Reader, data: Bytes)
    requires |r.received| == r.target >= 8
    ensures TakePayload(cfg, r, data) == Complete(cfg, r.received)
  {
    assert r.received + data[..0] == r.received;
  }
}
