/** The DFU application layer: its globals, the class request handler and the completion callback that
    does the deferred flash work. */
module DfuLayer {
  import opened Words
  import opened Flash
  import opened Commands
  import opened DfuRequests
  import opened FlashDriver

  /** Copy n bytes between two buffers. */
  method CopyBytes(to: array<Byte>, from: array<Byte>, n: nat)
    requires to != from && n <= from.Length && n <= to.Length
    modifies to
    ensures to[..] == Overwrite(old(to[..]), 0, from[..n])
  {
    forall i | 0 <= i < n {
      to[i] := from[i];
    }
    assert to[..] == from[..n] + old(to[..])[n..];
  }

  class DfuApp {
    const flash: FlashController
    const controlBuffer: array<Byte>
    const shadow: array<Byte>
    var state: DfuState
    var len: nat
    var addr: U32
    var blocknum: U16

    ghost predicate Wired() {
      && flash.Wired()
      && controlBuffer.Length == TRANSFER_SIZE && shadow.Length == TRANSFER_SIZE
      && controlBuffer != shadow && controlBuffer != flash.cells && shadow != flash.cells
    }

    /** Between requests the flash controller is locked and at rest. */
    ghost predicate Valid()
      reads this, flash
    {
      Wired() && flash.Closed() && (state.Pending() ==> 1 <= len <= TRANSFER_SIZE)
    }

    ghost function LayerState(): (d: Dfu)
      reads this, shadow
    {
      Dfu(state, Command(blocknum, len, shadow[..]))
    }

    ghost function TargetState(): (t: Target)
      reads this, flash, flash.cells
    {
      Target(flash.cells[..], addr, flash.wiped)
    }

    constructor (flash: FlashController, controlBuffer: array<Byte>)
      requires flash.Closed() && controlBuffer.Length == TRANSFER_SIZE && controlBuffer != flash.cells
      ensures Valid() && this.flash == flash && this.controlBuffer == controlBuffer && fresh(shadow)
      ensures state == DfuIdle && addr == 0 && LayerState() == Dfu(DfuIdle, Command(0, 0, seq(TRANSFER_SIZE, _ => 0)))
    {
      this.flash, this.controlBuffer := flash, controlBuffer;
      shadow := new Byte[TRANSFER_SIZE](_ => 0);
      state, len, addr, blocknum := DfuIdle, 0, 0, 0;
      new;
      assert shadow[..] == seq(TRANSFER_SIZE, _ => 0);
    }

    /** `usbdfu_getstatus` */
    method GetStatus() returns (status: Byte, pollTimeout: nat)
      modifies this`state
      ensures state == StatusState(old(state))
      ensures status == StatusReply(old(state))[0] && pollTimeout == StatusReply(old(state))[1]
    {
      pollTimeout := 0;
      match state {
        case DnloadSync =>
          state, pollTimeout, status := DnBusy, 100, STATUS_OK;
        case ManifestSync =>
          state, status := Manifest, STATUS_OK;
        case Error =>
          status := STATUS_ERR_UNKNOWN;
        case _ =>
          status := STATUS_OK;
      }
    }

    /** Write a short reply at the start of the control buffer. */
    method PutReply(data: seq<Byte>)
      requires Wired() && |data| <= TRANSFER_SIZE
      modifies controlBuffer
      ensures controlBuffer[..] == Overwrite(old(controlBuffer[..]), 0, data)
    {
      forall i | 0 <= i < |data| {
        controlBuffer[i] := data[i];
      }
      assert controlBuffer[..] == data + old(controlBuffer[..])[|data|..];
    }

    /** The erase loop over the hardware pages of a transfer range. */
    method EraseRange(base: U32, end: U32)
      requires Wired() && flash.Open()
      modifies flash`control, flash`addressRegister, flash.cells
      ensures flash.Open() && flash.cells[..] == EraseFrom(flash.chip, old(flash.cells[..]), base, end)
    {
      ghost var found := flash.cells[..];
      var page: int := base;
      hide EraseIfDirty;
      while page < end
        invariant flash.Open() && base <= page
        invariant EraseFrom(flash.chip, flash.cells[..], page, end) == EraseFrom(flash.chip, found, base, end)
        decreases end - page
      {
        flash.EraseDirty(page);
        page := page + flash.chip.PageSize();
      }
    }

    /** The part of the callback that a busy data block runs: wipe, range test, erase loop, program. */
    method WriteBlock()
      requires Wired() && flash.Open() && 1 <= len <= TRANSFER_SIZE && blocknum != 0
      modifies flash, flash.cells
      ensures flash.Open() && TargetState() == Apply(flash.chip, old(TargetState()), LayerState().prog)
    {
      hide EraseFrom, Program, EvenPart;
      var chip := flash.chip;
      if chip.safeWrite {
        flash.CheckDoErase();
      }
      var base := BlockAddress(addr, blocknum);
      if base >= USER_START && Wrap(base + len) <= chip.End() {
        EraseRange(base, Wrap(base + len));
        if chip.gd {
          flash.ProgramBufferGd32(base, shadow, len);
        } else {
          flash.ProgramBuffer(base, shadow, len);
        }
      }
    }

    /** `usbdfu_getstatus_complete`: executes the recorded command if it is busy. It finds the flash
        controller locked and leaves it locked. */
    method GetStatusComplete()
      requires Valid()
      modifies this`state, this`addr, flash, flash.cells
      ensures Valid()
      ensures old(state) == DnBusy ==>
                state == DnloadIdle && TargetState() == Apply(flash.chip, old(TargetState()), old(LayerState().prog))
      ensures old(state) != DnBusy ==> state == old(state) && TargetState() == old(TargetState())
    {
      if state == DnBusy {
        flash.Unlock();
        if blocknum == 0 {
          if shadow[0] == CMD_ERASE {
            if flash.chip.safeWrite {
              flash.CheckDoErase();
            }
            var base := Le32(shadow[..], 1);
            if base >= USER_START && Wrap(base + TRANSFER_SIZE) <= flash.chip.End() {
              flash.EraseDirty(base);
            }
          } else if shadow[0] == CMD_SETADDR {
            addr := Le32(shadow[..], 1);
          }
        } else {
          WriteBlock();
        }
        flash.Lock();
        state := DnloadIdle;
      }
    }

    /** The DFU_DNLOAD case. */
    method Download(req: Setup, wLength: U16)
      requires Valid()
      modifies this`state, this`len, this`blocknum, shadow
      ensures Valid()
      ensures LayerState() == if wLength == 0 then old(LayerState()).(state := ManifestSync)
                              else var n := Min(wLength, TRANSFER_SIZE);
                                   Dfu(DnloadSync, Command(req.wValue, n,
                                       Overwrite(old(shadow[..]), 0, controlBuffer[..n])))
    {
      if wLength == 0 {
        state := ManifestSync;
      } else {
        blocknum := req.wValue;
        len := wLength;
        if len > shadow.Length {
          len := shadow.Length;
        }
        CopyBytes(shadow, controlBuffer, len);
        state := DnloadSync;
      }
    }

    /** The DFU_UPLOAD case. */
    method Upload(req: Setup) returns (replyLen: U16)
      requires Valid() && req.bRequest == DFU_UPLOAD
      modifies this`state, controlBuffer
      ensures Valid() && TargetState() == old(TargetState())
      ensures Reply(Handled, LayerState(), controlBuffer[..], replyLen, false)
              == DfuRequest(flash.chip, old(TargetState()), old(LayerState()), req, old(controlBuffer[..]), req.wLength)
    {
      hide Overwrite, ReadRange;
      state := UploadIdle;
      if req.wValue == 0 {
        PutReply([0, CMD_SETADDR, CMD_ERASE]);
        replyLen := 3;
      } else if !flash.chip.upload {
        state, replyLen := Error, 0;
      } else {
        var base := BlockAddress(addr, req.wValue);
        if base >= USER_START && Wrap(base + TRANSFER_SIZE) <= flash.chip.End() {
          PutReply(ReadRange(flash.chip, flash.cells[..], base, TRANSFER_SIZE));
          replyLen := TRANSFER_SIZE;
        } else {
          state, replyLen := Error, 0;
        }
      }
    }

    /** The reply of DFU_GETSTATUS. */
    method ReportStatus()
      requires Valid()
      modifies this`state, controlBuffer
      ensures Valid() && state == StatusState(old(state))
      ensures controlBuffer[..] == Overwrite(old(controlBuffer[..]), 0, StatusReply(old(state)))
    {
      var status, pollTimeout := GetStatus();
      var reply := [status, pollTimeout % 0x100, pollTimeout / 0x100 % 0x100, pollTimeout / 0x1_0000 % 0x100,
                    state.Code(), 0];
      assert reply == StatusReply(old(state));
      PutReply(reply);
    }

    /** `usbdfu_control_request`. The reply length is in/out; the callback is reported as a flag. */
    method ControlRequest(req: Setup) returns (code: ReturnCode, replyLen: U16, callback: bool)
      requires Valid()
      modifies this`state, this`len, this`blocknum, shadow, controlBuffer
      ensures Valid() && TargetState() == old(TargetState())
      ensures Reply(code, LayerState(), controlBuffer[..], replyLen, callback)
              == DfuRequest(flash.chip, old(TargetState()), old(LayerState()), req, old(controlBuffer[..]), req.wLength)
    {
      hide Overwrite, ReadRange, StatusReply;
      code, replyLen, callback := Handled, req.wLength, false;
      if req.bRequest == DFU_DNLOAD {
        Download(req, req.wLength);
      } else if req.bRequest == DFU_CLRSTATUS {
        if state == Error {
          state := DfuIdle;
        }
      } else if req.bRequest == DFU_ABORT {
        state := DfuIdle;
      } else if req.bRequest == DFU_DETACH {
        state := Manifest;
      } else if req.bRequest == DFU_UPLOAD {
        replyLen := Upload(req);
      } else if req.bRequest == DFU_GETSTATUS {
        ReportStatus();
        replyLen, callback := 6, true;
      } else if req.bRequest == DFU_GETSTATE {
        PutReply([state.Code()]);
        replyLen := 1;
      } else {
        code := NextCallback;
      }
    }
  }
}
