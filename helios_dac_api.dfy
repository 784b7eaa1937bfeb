/** The entry points of the Helios DAC API and the state they share: whether a
    device scan succeeded (`inited`) and the controller that talks USB. */
module HeliosDacApi {
  import opened HeliosDefs
  import opened FrameCodec
  import opened ControlCodec

  /** One call into the USB side, with what it returned. */
  datatype Call =
    | Enumerate(count: int)
    | Release
    | FrameSent(dacNum: int, frame: seq<byte>, result: int)
    | ControlSent(dacNum: int, request: seq<byte>, result: int)
    | ResponseRead(dacNum: int, length: nat, result: int, reply: seq<byte>)

  /** The calls a query makes: the request, then, if the send returned 1,
      the read of a response of the given length. */
  function QueryCalls(dacNum: int, request: seq<byte>, length: nat, sent: int, received: int, reply: seq<byte>): seq<Call> {
    [ControlSent(dacNum, request, sent)] +
    (if sent == 1 then [ResponseRead(dacNum, length, received, reply)] else [])
  }

  /** Stands for the HeliosDac controller and the USB transfers behind it,
      whose code is not part of this model: every call returns whatever the
      devices make of it, and is recorded in `log`. */
  class HeliosDac {
    ghost var log: seq<Call>

    constructor ()
      ensures log == []
    {
      log := [];
    }

    /** Creates the controller and scans the bus (`new HeliosDac()` and its
        OpenDevices); the count of DACs found, 0 or less on failure. */
    method OpenDevices() returns (count: int)
      modifies this
      ensures log == old(log) + [Enumerate(count)]
    {
      count :| true;
      log := log + [Enumerate(count)];
    }

    /** Destroys the controller and with it the device handles. */
    method Close()
      modifies this
      ensures log == old(log) + [Release]
    {
      log := log + [Release];
    }

    method SendFrame(dacNum: int, frame: seq<byte>) returns (result: int)
      modifies this
      ensures log == old(log) + [FrameSent(dacNum, frame, result)]
    {
      result :| true;
      log := log + [FrameSent(dacNum, frame, result)];
    }

    method SendControl(dacNum: int, request: seq<byte>) returns (result: int)
      modifies this
      ensures log == old(log) + [ControlSent(dacNum, request, result)]
    {
      result :| true;
      log := log + [ControlSent(dacNum, request, result)];
    }

    /** Reads a response of `length` bytes into the control buffer. */
    method GetControlResponse(dacNum: int, length: nat) returns (result: int, reply: seq<byte>)
      modifies this
      ensures |reply| == length
      ensures log == old(log) + [ResponseRead(dacNum, length, result, reply)]
    {
      result :| true;
      assert |seq(length, _ => 0 as byte)| == length;
      reply :| |reply| == length;
      log := log + [ResponseRead(dacNum, length, result, reply)];
    }
  }

  /** The driver's global state. */
  class Api {
    /** A scan found at least one DAC and the controller is alive. */
    var inited: bool
    const dacController: HeliosDac

    constructor ()
      ensures !inited && fresh(dacController) && dacController.log == []
    {
      inited := false;
      dacController := new HeliosDac();
    }

    // ------------------------------------------------------------- lifecycle

    /** Closes any open session, scans for DACs and returns their count; the
        session is open afterwards exactly when that count is positive. On a
        failed scan the new controller is destroyed again. */
    method OpenDevices() returns (result: int)
      modifies this, dacController
      ensures inited <==> result > 0
      ensures dacController.log == old(dacController.log) +
        (if old(inited) then [Release] else []) +
        [Enumerate(result)] +
        (if result > 0 then [] else [Release])
    {
      var _ := CloseDevices();
      result := dacController.OpenDevices();
      if result <= 0 {
        dacController.Close();
      } else {
        inited := true;
      }
    }

    /** Ends an open session and returns 1; without one, changes nothing and
        returns 0. */
    method CloseDevices() returns (result: int)
      modifies this, dacController
      ensures !inited
      ensures result == (if old(inited) then 1 else 0)
      ensures dacController.log == old(dacController.log) + (if old(inited) then [Release] else [])
    {
      if inited {
        inited := false;
        dacController.Close();
        result := 1;
      } else {
        result := 0;
      }
    }

    /** Closing twice in a row: the second close always returns 0 and makes
        no call. */
    method CloseTwice() returns (first: int, second: int)
      modifies this, dacController
      ensures first == (if old(inited) then 1 else 0) && second == 0 && !inited
      ensures dacController.log == old(dacController.log) + (if old(inited) then [Release] else [])
    {
      first := CloseDevices();
      second := CloseDevices();
    }

    // ------------------------------------------------------------------ frames

    /** Sends numOfPoints points to DAC dacNum as one frame. Without a session,
        without points, or with a count or rate out of range it returns 0 and
        makes no call; otherwise it sends EncodeFrame of the frame and returns
        what SendFrame returned. */
    method WriteFrame(dacNum: int, pps: int, flags: byte, points: Option<seq<Point>>, numOfPoints: int)
      returns (result: int)
      requires inited && points.Some? && ValidFrameRequest(pps, numOfPoints) ==> numOfPoints <= |points.value|
      modifies dacController
      ensures !inited || points.None? || !ValidFrameRequest(pps, numOfPoints) ==>
        result == 0 && dacController.log == old(dacController.log)
      ensures inited && points.Some? && ValidFrameRequest(pps, numOfPoints) ==>
        dacController.log == old(dacController.log) +
          [FrameSent(dacNum, EncodeFrame(Frame(pps, flags, points.value[..numOfPoints])), result)]
    {
      if !inited || points.None? {
        return 0;
      }
      if numOfPoints < 0 || numOfPoints > HELIOS_MAX_POINTS || pps > HELIOS_MAX_RATE || pps < HELIOS_MIN_RATE {
        return 0;
      }
      var frame := PackFrame(pps, flags, points.value, numOfPoints);
      result := dacController.SendFrame(dacNum, frame);
    }

    // ------------------------------------------------- fire-and-forget commands

    /** Asks DAC dacNum to stop; 1 when SendControl returned non-zero, else 0. */
    method Stop(dacNum: int) returns (result: int, ghost sent: int)
      modifies dacController
      ensures !inited ==> result == 0 && dacController.log == old(dacController.log)
      ensures inited ==>
        dacController.log == old(dacController.log) + [ControlSent(dacNum, Encode(Command.Stop), sent)] &&
        result == (if sent != 0 then 1 else 0)
    {
      if !inited {
        return 0, 0;
      }
      var tx := dacController.SendControl(dacNum, Encode(Command.Stop));
      sent := tx;
      if tx != 0 {
        result := 1;
      } else {
        result := 0;
      }
    }

    /** Opens or closes the shutter of DAC dacNum; what SendControl returned,
        or 0 without a session. */
    method SetShutter(dacNum: int, value: bool) returns (result: int)
      modifies dacController
      ensures !inited ==> result == 0 && dacController.log == old(dacController.log)
      ensures inited ==>
        dacController.log == old(dacController.log) + [ControlSent(dacNum, Encode(Command.SetShutter(value)), result)]
    {
      if !inited {
        return 0;
      }
      result := dacController.SendControl(dacNum, Encode(Command.SetShutter(value)));
    }

    /** Stores the first 31 bytes of name in DAC dacNum; what SendControl
        returned, or -1 without a session. */
    method SetName(dacNum: int, name: seq<byte>) returns (result: int)
      requires inited ==> |name| >= 31
      modifies dacController
      ensures !inited ==> result == -1 && dacController.log == old(dacController.log)
      ensures inited ==>
        dacController.log == old(dacController.log) + [ControlSent(dacNum, Encode(Command.SetName(name[..31])), result)]
    {
      if !inited {
        return -1;
      }
      result := dacController.SendControl(dacNum, Encode(Command.SetName(name[..31])));
    }

    /** Asks DAC dacNum to erase its firmware; what SendControl returned, or
        -1 without a session. */
    method EraseFirmware(dacNum: int) returns (result: int)
      modifies dacController
      ensures !inited ==> result == -1 && dacController.log == old(dacController.log)
      ensures inited ==>
        dacController.log == old(dacController.log) + [ControlSent(dacNum, Encode(Command.EraseFirmware), result)]
    {
      if !inited {
        return -1;
      }
      result := dacController.SendControl(dacNum, Encode(Command.EraseFirmware));
    }

    // ----------------------------------------------------------------- queries

    /** Whether DAC dacNum is ready for a new frame: StatusResult of what the
        transfers returned, or -1 without a session. */
    method GetStatus(dacNum: int) returns (result: int, ghost sent: int, ghost received: int, ghost reply: seq<byte>)
      modifies dacController
      ensures !inited ==> result == -1 && dacController.log == old(dacController.log)
      ensures inited ==>
        dacController.log == old(dacController.log) +
          QueryCalls(dacNum, Encode(Command.GetStatus), 2, sent, received, reply) &&
        (sent == 1 ==> |reply| == 2) &&
        result == StatusResult(sent, received, reply)
    {
      if !inited {
        return -1, 0, 0, [];
      }
      var tx := dacController.SendControl(dacNum, Encode(Command.GetStatus));
      sent, received, reply := tx, 0, [];
      if tx != 1 {
        return -1, sent, received, reply;
      }
      var ctrlBuffer;
      tx, ctrlBuffer := dacController.GetControlResponse(dacNum, 2);
      received, reply := tx, ctrlBuffer;
      if tx == 1 {
        if ctrlBuffer[0] == ResponseOpcode(Command.GetStatus) {
          if ctrlBuffer[1] == 1 {
            result := 1;
          } else {
            result := 0;
          }
        } else {
          result := -1;
        }
      } else {
        result := -1;
      }
    }

    /** The firmware version of DAC dacNum: FirmwareResult of what the
        transfers returned, or -1 without a session. */
    method GetFirmwareVersion(dacNum: int) returns (result: int, ghost sent: int, ghost received: int, ghost reply: seq<byte>)
      modifies dacController
      ensures !inited ==> result == -1 && dacController.log == old(dacController.log)
      ensures inited ==>
        dacController.log == old(dacController.log) +
          QueryCalls(dacNum, Encode(Command.GetFirmwareVersion), 5, sent, received, reply) &&
        (sent == 1 ==> |reply| == 5) &&
        result == FirmwareResult(sent, received, reply)
    {
      if !inited {
        return -1, 0, 0, [];
      }
      var tx := dacController.SendControl(dacNum, Encode(Command.GetFirmwareVersion));
      sent, received, reply := tx, 0, [];
      if tx != 1 {
        return -1, sent, received, reply;
      }
      var ctrlBuffer;
      tx, ctrlBuffer := dacController.GetControlResponse(dacNum, 5);
      received, reply := tx, ctrlBuffer;
      if tx == 1 {
        if ctrlBuffer[0] == ResponseOpcode(Command.GetFirmwareVersion) {
          result := Int32(LittleEndian32(ctrlBuffer[1..5]));
        } else {
          result := -1;
        }
      } else {
        result := 0;
      }
    }

    /** The name of DAC dacNum: NameResult of what the transfers returned,
        or -1 and nothing written without a session. */
    method GetName(dacNum: int) returns (result: int, name: seq<byte>, ghost sent: int, ghost received: int, ghost reply: seq<byte>)
      modifies dacController
      ensures !inited ==> result == -1 && name == [] && dacController.log == old(dacController.log)
      ensures inited ==>
        dacController.log == old(dacController.log) +
          QueryCalls(dacNum, Encode(Command.GetName), 32, sent, received, reply) &&
        (sent == 1 ==> |reply| == 32) &&
        (result, name) == NameResult(dacNum, sent, received, reply)
    {
      if !inited {
        return -1, [], 0, 0, [];
      }
      var tx := dacController.SendControl(dacNum, Encode(Command.GetName));
      sent, received, reply := tx, 0, [];
      if tx == 1 {
        var ctrlBuffer;
        tx, ctrlBuffer := dacController.GetControlResponse(dacNum, 32);
        received, reply := tx, ctrlBuffer;
        if tx == 1 && ctrlBuffer[0] == ResponseOpcode(Command.GetName) {
          return 1, NamePayload(ctrlBuffer), sent, received, reply;
        }
      }
      result, name := 0, FallbackName(dacNum);
    }
  }

  /** A client session: after a scan that finds three DACs a 500-point frame
      goes out as 3505 bytes, a 5000-point frame is refused without a call,
      and after closing GetStatus reports -1 without a call. */
  method FrameSession(api: Api, points: seq<Point>)
    returns (count: int, written: int, refused: int, status: int, ghost frame: seq<byte>)
    requires |points| == 500
    modifies api, api.dacController
    ensures count == 3 ==>
      frame == EncodeFrame(Frame(30000, 0, points)) && |frame| == 7 * 500 + 5 &&
      refused == 0 && status == -1 && !api.inited
    ensures count == 3 ==>
      api.dacController.log == old(api.dacController.log) +
        (if old(api.inited) then [Release] else []) +
        [Enumerate(3), FrameSent(1, frame, written), Release]
  {
    count := api.OpenDevices();
    written, refused, status, frame := 0, 0, 0, [];
    if count == 3 {
      assert points[..500] == points;
      frame := EncodeFrame(Frame(30000, 0, points));
      written := api.WriteFrame(1, 30000, 0, Some(points), 500);
      refused := api.WriteFrame(1, 30000, 0, Some(points), 5000);
      var _ := api.CloseDevices();
      ghost var sent, received, reply;
      status, sent, received, reply := api.GetStatus(1);
    }
  }
}
