/**
 What port ranking knows about device names: the operating system it runs on,
 the name patterns of USB serial adapters on each system, and the sort keys
 that put the most likely devices first.
 */
module PortNames {
  import opened Text
  import opened Ranking

  datatype Platform = Linux | Darwin | Windows | OtherSystem

  /** The system name, compared after ASCII lower-casing. */
  function PlatformOf(system: string): Platform
  {
    var s := Lower(system);
    if s == "linux" then Linux
    else if s == "darwin" then Darwin
    else if s == "windows" then Windows
    else OtherSystem
  }

  /** The automatic ranking's Linux adapters: USB serial and ACM modems. */
  predicate LinuxAdapter(p: string)
  {
    Contains(p, "/dev/ttyUSB") || Contains(p, "/dev/ttyACM")
  }

  /** The configured ranking also counts the on-board UARTs. */
  predicate LinuxSerial(p: string)
  {
    LinuxAdapter(p) || Contains(p, "/dev/ttyS")
  }

  /** The automatic ranking's macOS adapters. */
  predicate DarwinAdapter(p: string)
  {
    Contains(p, "/dev/cu.usbserial") || Contains(p, "/dev/cu.usbmodem")
  }

  /** The configured ranking also counts Silicon Labs and WCH adapters. */
  predicate DarwinSerial(p: string)
  {
    DarwinAdapter(p) || Contains(p, "/dev/cu.SLAB_USBtoUART") || Contains(p, "/dev/cu.wchusbserial")
  }

  predicate ComPort(p: string)
  {
    StartsWith(p, "COM")
  }

  /** The Linux devices ranked first. */
  predicate UsbOrAcm(p: string)
  {
    Contains(p, "USB") || Contains(p, "ACM")
  }

  /** The macOS devices ranked first. */
  predicate UsbSerialOrModem(p: string)
  {
    Contains(p, "usbserial") || Contains(p, "usbmodem")
  }

  /** Linux key: USB and ACM devices first, then by name. */
  function LinuxRank(p: string): Rank
  {
    Rank(if UsbOrAcm(p) then 0 else 1, p)
  }

  /** macOS key: usbserial and usbmodem devices first, then by name. */
  function DarwinRank(p: string): Rank
  {
    Rank(if UsbSerialOrModem(p) then 0 else 1, p)
  }

  /** The number after `COM`, or 999 when the rest of the name is not a
      non-empty run of decimal digits. */
  function ComNumber(p: string): (n: int)
    ensures n >= 0
  {
    if |p| >= 3 && AllDigits(p[3..]) then DecimalValue(p[3..]) else 999
  }

  /** Windows key: the COM number alone, so equal numbers keep their order. */
  function ComRank(p: string): Rank
  {
    Rank(ComNumber(p), "")
  }

  /** Names sort by name alone. */
  function NameRank(p: string): Rank
  {
    Rank(0, p)
  }

  /** `COM` followed by the decimal spelling of `n` has COM number `n`. */
  lemma ComNumberOfDecimal(n: nat)
    ensures ComPort("COM" + Decimal(n)) && ComNumber("COM" + Decimal(n)) == n
  {
    var p := "COM" + Decimal(n);
    assert p[..3] == "COM" && p[3..] == Decimal(n);
    DecimalRoundTrip(n);
  }

  /** A COM name with anything but digits after `COM` ranks with 999. */
  lemma ComNumberNonNumeric(p: string)
    requires ComPort(p) && !AllDigits(p[3..])
    ensures ComNumber(p) == 999
  {
  }

  /** Ports are ordered by number, not by name: COM2 before COM10, though
      "COM10" < "COM2" as strings. */
  lemma ComNumericOrder()
    ensures ComNumber("COM2") == 2 && ComNumber("COM10") == 10
    ensures RankLe(ComRank("COM2"), ComRank("COM10")) && !RankLe(ComRank("COM10"), ComRank("COM2"))
    ensures LexLe("COM10", "COM2") && !LexLe("COM2", "COM10")
  {
    ComNumberOfDecimal(2);
    ComNumberOfDecimal(10);
    assert Decimal(2) == "2";
    assert Decimal(10) == "10";
    assert "COM10"[1..] == "OM10" && "COM2"[1..] == "OM2";
    assert "OM10"[1..] == "M10" && "OM2"[1..] == "M2";
    assert "M10"[1..] == "10" && "M2"[1..] == "2";
  }

  /** Every automatic Linux candidate names USB or ACM, so its group is 0 and
      the Linux ranking orders the candidates by name alone. */
  lemma LinuxAdapterFirstGroup(p: string)
    requires LinuxAdapter(p)
    ensures LinuxRank(p) == Rank(0, p)
  {
    if Contains(p, "/dev/ttyUSB") {
      assert "/dev/ttyUSB"[8..11] == "USB";
      ContainsPart(p, "/dev/ttyUSB", 8, 11);
    } else {
      assert "/dev/ttyACM"[8..11] == "ACM";
      ContainsPart(p, "/dev/ttyACM", 8, 11);
    }
  }

  /** Likewise every automatic macOS candidate is in the first group. */
  lemma DarwinAdapterFirstGroup(p: string)
    requires DarwinAdapter(p)
    ensures DarwinRank(p) == Rank(0, p)
  {
    if Contains(p, "/dev/cu.usbserial") {
      assert "/dev/cu.usbserial"[8..17] == "usbserial";
      ContainsPart(p, "/dev/cu.usbserial", 8, 17);
    } else {
      assert "/dev/cu.usbmodem"[8..16] == "usbmodem";
      ContainsPart(p, "/dev/cu.usbmodem", 8, 16);
    }
  }
}
