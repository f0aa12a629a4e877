/** The slave-bus side of the firmware: the command/index latch written by a
    master write (SLA+W) and the fixed 4-byte response built on a master read
    (SLA+R). */
module EggBus {
  import opened Board

  /** The EGG_BUS_COMMAND_* codes. Their values live in egg_bus.h, which is not
      part of this model, so they are parameters; since they are the labels of
      one C switch they are pairwise distinct. */
  datatype CommandCodes = CommandCodes(sensorCount: byte, getRawValue: byte, getCalculatedValue: byte)
  {
    predicate Distinct() {
      sensorCount != getRawValue && sensorCount != getCalculatedValue
      && getRawValue != getCalculatedValue
    }
  }

  /** What a latched command byte means to onRequestService. */
  datatype Command = SensorCount | GetRawValue | GetCalculatedValue | Unrecognised

  function Classify(codes: CommandCodes, c: byte): (cmd: Command)
    requires codes.Distinct()
    ensures cmd == SensorCount <==> c == codes.sensorCount
    ensures cmd == GetRawValue <==> c == codes.getRawValue
    ensures cmd == GetCalculatedValue <==> c == codes.getCalculatedValue
  {
    if c == codes.sensorCount then SensorCount
    else if c == codes.getRawValue then GetRawValue
    else if c == codes.getCalculatedValue then GetCalculatedValue
    else Unrecognised
  }

  /** The commands whose second byte onReceiveService latches as the sensor index. */
  predicate LatchesIndex(codes: CommandCodes, c: byte) {
    c == codes.sensorCount || c == codes.getCalculatedValue
  }

  /** The two values behind the egg_bus_get/set_command_received and
      egg_bus_get/set_sensor_index_requested accessors. */
  datatype Latch = Latch(command: byte, sensorIndex: byte)

  /** The latch after a master write whose buffered bytes are `inBytes`. */
  function Receive(l: Latch, codes: CommandCodes, inBytes: seq<byte>): (r: Latch)
    requires |inBytes| >= 1
    requires LatchesIndex(codes, inBytes[0]) ==> |inBytes| >= 2
    ensures r.command == inBytes[0]
    ensures LatchesIndex(codes, inBytes[0]) ==> r.sensorIndex == inBytes[1]
    ensures !LatchesIndex(codes, inBytes[0]) ==> r.sensorIndex == l.sensorIndex
  {
    Latch(inBytes[0], if LatchesIndex(codes, inBytes[0]) then inBytes[1] else l.sensorIndex)
  }

  /** The four bytes transmitted on a master read, most significant byte first.
      `sensorReading(i)` stands for analogRead(egg_bus_map_to_analog_pin(i)). */
  function Response(l: Latch, codes: CommandCodes, sensorReading: byte -> uint16): (r: seq<byte>)
    requires codes.Distinct()
    ensures |r| == 4
    ensures r[0] == 0 && r[1] == 0
    ensures Classify(codes, l.command) == SensorCount ==> r[2] == 0 && r[3] == NumHostedSensors
    ensures Classify(codes, l.command) in {GetRawValue, GetCalculatedValue} ==>
              (r[2] as int) * 256 + r[3] as int == sensorReading(l.sensorIndex) as int
    ensures Classify(codes, l.command) == Unrecognised ==> r == [0, 0, 0, 0]
  {
    match Classify(codes, l.command)
    case SensorCount => [0, 0, 0, NumHostedSensors]
    case GetRawValue | GetCalculatedValue =>
      var v := sensorReading(l.sensorIndex);
      [0, 0, v / 256, v % 256]
    case Unrecognised => [0, 0, 0, 0]
  }

  /** The egg_bus command/index state and the two TWI slave callbacks. */
  class SlaveBus {
    var commandReceived: byte
    var sensorIndexRequested: byte
    const codes: CommandCodes

    ghost predicate Valid()
      reads this
    {
      codes.Distinct()
    }

    function Latched(): (l: Latch)
      reads this
      ensures l.command == commandReceived && l.sensorIndex == sensorIndexRequested
    {
      Latch(commandReceived, sensorIndexRequested)
    }

    /** The egg_bus state starts from whatever egg_bus.c initialises it to;
        that file is not part of this model, so the start values are parameters. */
    constructor (codes: CommandCodes, command: byte, sensorIndex: byte)
      requires codes.Distinct()
      ensures Valid()
      ensures this.codes == codes && Latched() == Latch(command, sensorIndex)
    {
      this.codes := codes;
      commandReceived := command;
      sensorIndexRequested := sensorIndex;
    }

    /** onReceiveService: `inBytes` is the transport's receive buffer; like the
        source, `numBytes` is not consulted. */
    method OnReceiveService(inBytes: seq<byte>, numBytes: int)
      requires Valid()
      requires |inBytes| >= 1
      requires LatchesIndex(codes, inBytes[0]) ==> |inBytes| >= 2
      modifies this
      ensures Valid()
      ensures Latched() == Receive(old(Latched()), codes, inBytes)
    {
      commandReceived := inBytes[0];
      if inBytes[0] == codes.sensorCount || inBytes[0] == codes.getCalculatedValue {
        sensorIndexRequested := inBytes[1];
      }
    }

    /** onRequestService: fills a zeroed 4-byte buffer according to the latched
        command and returns what is handed to twi_transmit. It changes no state. */
    method OnRequestService(sensorReading: byte -> uint16) returns (response: seq<byte>)
      requires Valid()
      ensures response == Response(Latched(), codes, sensorReading)
    {
      var buffer := new byte[4](_ => 0);
      var analogValue: uint16 := 0;
      var cmd := Classify(codes, commandReceived);
      if cmd == SensorCount {
        buffer[3] := NumHostedSensors;
      } else if cmd == GetRawValue || cmd == GetCalculatedValue {
        analogValue := sensorReading(sensorIndexRequested);
        buffer[2] := analogValue / 256;
        buffer[3] := analogValue % 256;
      }
      response := buffer[..];
    }
  }
}

/** Properties of a write followed by reads, stated over Receive and Response. */
module EggBusProperties {
  import opened Board
  import opened EggBus

  /** A repeated write of the same bytes leaves the latch where the first put it. */
  lemma ReceiveIdempotent(l: Latch, codes: CommandCodes, inBytes: seq<byte>)
    requires |inBytes| >= 1
    requires LatchesIndex(codes, inBytes[0]) ==> |inBytes| >= 2
    ensures Receive(Receive(l, codes, inBytes), codes, inBytes) == Receive(l, codes, inBytes)
  {
  }

  /** A write of an index-latching command fixes the whole latch, whatever it held;
      any other write keeps the previously latched index. */
  lemma ReceiveOverwrites(l1: Latch, l2: Latch, codes: CommandCodes, inBytes: seq<byte>)
    requires |inBytes| >= 1
    requires LatchesIndex(codes, inBytes[0]) ==> |inBytes| >= 2
    ensures LatchesIndex(codes, inBytes[0]) ==> Receive(l1, codes, inBytes) == Receive(l2, codes, inBytes)
    ensures !LatchesIndex(codes, inBytes[0]) ==>
              (Receive(l1, codes, inBytes) == Receive(l2, codes, inBytes) <==> l1.sensorIndex == l2.sensorIndex)
    ensures Receive(l1, codes, inBytes).command == Receive(l2, codes, inBytes).command
  {
  }

  /** Reads are a function of the latch and of the one analog input it names:
      two reads with no write between them take the same branch and sample the
      same sensor, and transmit the same bytes while that sensor's reading is
      unchanged. */
  lemma ResponseReadsOnlyLatch(l: Latch, codes: CommandCodes, f: byte -> uint16, g: byte -> uint16)
    requires codes.Distinct()
    requires f(l.sensorIndex) == g(l.sensorIndex)
    ensures Response(l, codes, f) == Response(l, codes, g)
  {
  }

  /** A sensor-count request answers [0, 0, 0, N] whatever index byte it carried. */
  lemma SensorCountRequest(l: Latch, codes: CommandCodes, index: byte, f: byte -> uint16)
    requires codes.Distinct()
    ensures Response(Receive(l, codes, [codes.sensorCount, index]), codes, f) == [0, 0, 0, NumHostedSensors]
    ensures Receive(l, codes, [codes.sensorCount, index]).sensorIndex == index
  {
  }

  /** A calculated-value request reads the sensor it names. */
  lemma CalculatedValueRequest(l: Latch, codes: CommandCodes, index: byte, f: byte -> uint16)
    requires codes.Distinct()
    ensures var r := Response(Receive(l, codes, [codes.getCalculatedValue, index]), codes, f);
            (r[2] as int) * 256 + r[3] as int == f(index) as int
  {
  }

  /** A raw-value write does not latch its index byte, so the read that follows
      samples the sensor latched by an earlier write. */
  lemma RawValueRequestKeepsIndex(l: Latch, codes: CommandCodes, index: byte, f: byte -> uint16)
    requires codes.Distinct()
    ensures var r := Response(Receive(l, codes, [codes.getRawValue, index]), codes, f);
            (r[2] as int) * 256 + r[3] as int == f(l.sensorIndex) as int
  {
  }

  /** A write of any byte that is not one of the three codes makes the next read all zeros. */
  lemma UnknownCommandRequest(l: Latch, codes: CommandCodes, inBytes: seq<byte>, f: byte -> uint16)
    requires codes.Distinct()
    requires |inBytes| >= 1
    requires inBytes[0] !in {codes.sensorCount, codes.getRawValue, codes.getCalculatedValue}
    ensures Response(Receive(l, codes, inBytes), codes, f) == [0, 0, 0, 0]
  {
  }
}
