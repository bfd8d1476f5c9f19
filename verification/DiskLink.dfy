/** The hex protocol between the kernel's disk driver (device/disk.c over
    device/PL011.c) and the disk process (device/disk.py), one line each way. */
module DiskLink {
  import opened Common

  type Byte = x: int | 0 <= x < 256

  // ------------------------------------------------------------ hex digits

  function Xtoi(x: char): int {
    if '0' <= x <= '9' then x as int - '0' as int
    else if 'a' <= x <= 'f' then 10 + (x as int - 'a' as int)
    else if 'A' <= x <= 'F' then 10 + (x as int - 'A' as int)
    else -1
  }

  /** (char) -1 is character 255. */
  function Itox(x: int): char {
    if 0 <= x <= 9 then (48 + x) as char else if 10 <= x <= 15 then (55 + x) as char else 255 as char
  }

  function PutHex(x: Byte): (s: string) { [Itox(x / 16), Itox(x % 16)] }

  /** The byte PL011_geth assembles from two characters, valid digits or not: it
      shifts and ors the two values, of which -1 has every bit set. */
  function GetHex(c: char, d: char): Byte {
    if Xtoi(d) == -1 then 255 else if Xtoi(c) == -1 then 240 + Xtoi(d) else 16 * Xtoi(c) + Xtoi(d)
  }

  /** The lower-case digit that binascii.hexlify writes. */
  function LowDigit(x: int): char
    requires 0 <= x < 16
  {
    if x <= 9 then (48 + x) as char else (87 + x) as char
  }

  function LowHex(x: Byte): string { [LowDigit(x / 16), LowDigit(x % 16)] }

  predicate IsHexDigit(c: char) { Xtoi(c) >= 0 }

  /** Both ends' notation for a byte reads back as that byte, at both ends. */
  lemma HexRoundTrip(x: Byte)
    ensures GetHex(PutHex(x)[0], PutHex(x)[1]) == x && GetHex(LowHex(x)[0], LowHex(x)[1]) == x
    ensures forall i :: 0 <= i < 2 ==> IsHexDigit(PutHex(x)[i]) && IsHexDigit(LowHex(x)[i])
  {
    assert forall d :: 0 <= d < 16 ==> Xtoi(Itox(d)) == d;
    assert forall d :: 0 <= d < 16 ==> Xtoi(LowDigit(d)) == d;
  }

  function HexText(bs: seq<Byte>): (s: string)
    ensures |s| == 2 * |bs|
  {
    if bs == [] then "" else PutHex(bs[0]) + HexText(bs[1..])
  }

  function LowText(bs: seq<Byte>): (s: string)
    ensures |s| == 2 * |bs|
  {
    if bs == [] then "" else LowHex(bs[0]) + LowText(bs[1..])
  }

  /** binascii.unhexlify; None where it raises an exception. */
  function Unhexlify(s: string): Option<seq<Byte>> {
    if s == "" then Some([])
    else if |s| == 1 || !IsHexDigit(s[0]) || !IsHexDigit(s[1]) then None
    else match Unhexlify(s[2..])
      case None => None
      case Some(bs) => Some([GetHex(s[0], s[1])] + bs)
  }

  lemma {:induction false} UnhexlifyText(bs: seq<Byte>)
    ensures Unhexlify(HexText(bs)) == Some(bs)
  {
    if bs != [] {
      UnhexlifyText(bs[1..]);
      HexRoundTrip(bs[0]);
      var s := HexText(bs);
      assert s[2..] == HexText(bs[1..]) && s[0] == PutHex(bs[0])[0] && s[1] == PutHex(bs[0])[1];
      assert [bs[0]] + bs[1..] == bs;
    }
  }

  lemma {:induction false} TextIsHex(bs: seq<Byte>)
    ensures forall i :: 0 <= i < 2 * |bs| ==> IsHexDigit(HexText(bs)[i]) && IsHexDigit(LowText(bs)[i])
  {
    if bs != [] {
      TextIsHex(bs[1..]);
      HexRoundTrip(bs[0]);
    }
  }

  // -------------------------------------------------------------- addresses

  /** The four bytes of a 32-bit number, least significant first. */
  function LittleEndian(a: nat): (bs: seq<Byte>)
    requires a < 0x1_0000_0000
    ensures |bs| == 4
  {
    [a % 256, a / 256 % 256, a / 65536 % 256, a / 16777216]
  }

  /** struct.unpack('<l', ...): four bytes as a signed number. */
  function SignedLong(bs: seq<Byte>): int
    requires |bs| == 4
  {
    var v: int := bs[0] as int + 256 * (bs[1] as int) + 65536 * (bs[2] as int) + 16777216 * (bs[3] as int);
    if v < 0x8000_0000 then v else v - 0x1_0000_0000
  }

  /** The driver sends addresses as unsigned, the disk reads them as signed. */
  lemma AddressSigned(a: nat)
    requires a < 0x1_0000_0000
    ensures SignedLong(LittleEndian(a)) == if a < 0x8000_0000 then a else a - 0x1_0000_0000
  {
    var b, c := a / 256, a / 65536;
    assert b / 256 == c && c / 256 == a / 16777216;
    assert a == a % 256 + 256 * (b % 256) + 65536 * (c % 256) + 16777216 * (c / 256);
  }

  // --------------------------------------------------------- request lines

  predicate IsSpace(c: char) { c == ' ' || c == '\n' || c == '\r' || c == '\t' || c == 11 as char || c == 12 as char }

  function LStrip(s: string): string { if s != "" && IsSpace(s[0]) then LStrip(s[1..]) else s }

  function RStrip(s: string): string { if s != "" && IsSpace(s[|s| - 1]) then RStrip(s[..|s| - 1]) else s }

  /** str.split(' '). */
  function Split(s: string): (r: seq<string>)
    ensures r != []
  {
    if s == "" then [""]
    else if s[0] == ' ' then [""] + Split(s[1..])
    else [[s[0]] + Split(s[1..])[0]] + Split(s[1..])[1..]
  }

  lemma {:induction false} SplitField(f: string, s: string)
    requires ' ' !in f
    ensures Split(f + (" " + s)) == [f] + Split(s)
    ensures Split(f) == [f]
  {
    if f == "" {
      assert f + (" " + s) == " " + s;
      assert (" " + s)[1..] == s;
    } else {
      SplitField(f[1..], s);
      assert (f + (" " + s))[1..] == f[1..] + (" " + s);
      assert [f[0]] + f[1..] == f;
    }
  }

  /** Text without blanks. */
  predicate Solid(s: string) { forall i :: 0 <= i < |s| ==> !IsSpace(s[i]) }

  lemma SolidText(bs: seq<Byte>)
    ensures Solid(HexText(bs)) && Solid(LowText(bs))
  {
    TextIsHex(bs);
  }

  /** A request line between blanks is stripped to the text itself. */
  lemma StripLine(s: string)
    requires s != "" && !IsSpace(s[0]) && !IsSpace(s[|s| - 1])
    ensures RStrip(LStrip(s + "\n")) == s
  {
    var line := s + "\n";
    assert LStrip(line) == line;
    assert line[..|line| - 1] == s;
  }

  // ---------------------------------------------------------- the disk process

  datatype Ack = Okay | Data(bytes: seq<Byte>) | Fail | Crash

  function AckText(ack: Ack): string {
    match ack
    case Okay => "00\n"
    case Data(bs) => "00 " + LowText(bs) + "\n"
    case Fail => "01\n"
    case Crash => ""
  }

  /** conf: block count and block length. */
  function Conf(blocks: seq<seq<Byte>>, blockLen: nat): Ack {
    if |blocks| < 0x8000_0000 && blockLen < 0x8000_0000
    then Data(LittleEndian(|blocks|) + LittleEndian(blockLen)) else Crash
  }

  /** The address field of a request; None if it cannot be decoded. */
  function Address(req: seq<string>): Option<int> {
    if |req| < 2 then None
    else match Unhexlify(req[1])
      case None => None
      case Some(bs) => if |bs| == 4 then Some(SignedLong(bs)) else None
  }

  /** wr: seeking to a negative address raises an exception. */
  function Wr(blocks: seq<seq<Byte>>, blockLen: nat, req: seq<string>): (Ack, seq<seq<Byte>>) {
    var a := Address(req);
    if a == None || |req| < 3 || Unhexlify(req[2]) == None then (Crash, blocks)
    else
      var address, data := a.value, Unhexlify(req[2]).value;
      if address >= |blocks| || |data| != blockLen then (Fail, blocks)
      else if address < 0 then (Crash, blocks)
      else (Okay, blocks[address := data])
  }

  function Rd(blocks: seq<seq<Byte>>, blockLen: nat, req: seq<string>): Ack {
    var a := Address(req);
    if a == None then Crash
    else if a.value >= |blocks| then Fail
    else if a.value < 0 then Crash
    else if |blocks[a.value]| != blockLen then Fail
    else Data(blocks[a.value])
  }

  /** One turn of the request loop: the acknowledgement and the new blocks. */
  function Handle(blocks: seq<seq<Byte>>, blockLen: nat, line: string): (Ack, seq<seq<Byte>>) {
    var req := Split(RStrip(LStrip(line)));
    if req[0] == "00" then (Conf(blocks, blockLen), blocks)
    else if req[0] == "01" then Wr(blocks, blockLen, req)
    else if req[0] == "02" then (Rd(blocks, blockLen, req), blocks)
    else (Fail, blocks)
  }

  function WrLine(a: nat, data: seq<Byte>): string
    requires a < 0x1_0000_0000
  {
    "01 " + HexText(LittleEndian(a)) + " " + HexText(data) + "\n"
  }

  function RdLine(a: nat): string
    requires a < 0x1_0000_0000
  {
    "02 " + HexText(LittleEndian(a)) + "\n"
  }

  /** What the disk makes of a write request. */
  lemma WrHandled(blocks: seq<seq<Byte>>, blockLen: nat, a: nat, data: seq<Byte>)
    requires a < 0x1_0000_0000 && 0 < blockLen
    ensures Handle(blocks, blockLen, WrLine(a, data)) ==
            if data == [] then (Crash, blocks)
            else if (a < 0x8000_0000 && a >= |blocks|) || |data| != blockLen then (Fail, blocks)
            else if a >= 0x8000_0000 then (Crash, blocks)
            else (Okay, blocks[a := data])
  {
    hide HexText, LittleEndian, SignedLong, Split, RStrip, LStrip, Unhexlify;
    var addr, text := HexText(LittleEndian(a)), HexText(data);
    SolidText(LittleEndian(a));
    SolidText(data);
    UnhexlifyText(LittleEndian(a));
    UnhexlifyText(data);
    AddressSigned(a);
    if data == [] { ShortWrite(addr); } else { FullWrite(addr, text); }
  }

  lemma FullWrite(addr: string, text: string)
    requires addr != "" && Solid(addr) && text != "" && Solid(text)
    ensures Split(RStrip(LStrip("01 " + addr + " " + text + "\n"))) == ["01", addr, text]
  {
    var s := "01 " + addr + " " + text;
    StripLine(s);
    assert s == "01" + (" " + (addr + (" " + text)));
    SplitField("01", addr + (" " + text));
    SplitField(addr, text);
    SplitField(text, "");
  }

  /** A write of no bytes sends a line that lacks its third field. */
  lemma ShortWrite(addr: string)
    requires addr != "" && Solid(addr)
    ensures Split(RStrip(LStrip("01 " + addr + " " + "" + "\n"))) == ["01", addr]
  {
    var line := "01 " + addr + " " + "" + "\n";
    var s := "01 " + addr;
    assert LStrip(line) == line;
    assert line[..|line| - 1] == s + " " && (s + " ")[..|s|] == s;
    assert RStrip(line) == RStrip(s + " ") == RStrip(s) == s;
    assert s == "01" + (" " + addr);
    SplitField("01", addr);
    SplitField(addr, "");
  }

  lemma RdHandled(blocks: seq<seq<Byte>>, blockLen: nat, a: nat)
    requires a < 0x1_0000_0000
    ensures Handle(blocks, blockLen, RdLine(a)) ==
            (if a >= 0x8000_0000 then Crash
             else if a >= |blocks| || |blocks[a]| != blockLen then Fail
             else Data(blocks[a]), blocks)
  {
    hide HexText, LittleEndian, SignedLong, Split;
    var addr := HexText(LittleEndian(a));
    SolidText(LittleEndian(a));
    UnhexlifyText(LittleEndian(a));
    AddressSigned(a);
    var s := "02 " + addr;
    assert s + "\n" == RdLine(a);
    StripLine(s);
    assert s == "02" + (" " + addr);
    SplitField("02", addr);
    SplitField(addr, "");
    assert Split(s) == ["02", addr];
  }

  /** What the disk makes of a request for its size: the number of blocks and their
      length, in four bytes each, if they are less than 2^31. */
  lemma ConfHandled(blocks: seq<seq<Byte>>, blockLen: nat)
    ensures var (ack, after) := Handle(blocks, blockLen, "00\n");
            && after == blocks
            && if |blocks| < 0x8000_0000 && blockLen < 0x8000_0000 then
                 && ack.Data? && |ack.bytes| == 8
                 && SignedLong(ack.bytes[..4]) == |blocks| && SignedLong(ack.bytes[4..]) == blockLen
               else ack == Crash
  {
    hide LittleEndian, SignedLong, Split;
    StripLine("00");
    assert "00" + "\n" == "00\n";
    SplitField("00", "");
    if |blocks| < 0x8000_0000 && blockLen < 0x8000_0000 {
      AddressSigned(|blocks|);
      AddressSigned(blockLen);
      var bs := LittleEndian(|blocks|) + LittleEndian(blockLen);
      assert bs[..4] == LittleEndian(|blocks|) && bs[4..] == LittleEndian(blockLen);
    }
  }

  /** A command the disk does not know fails. */
  lemma OtherHandled(blocks: seq<seq<Byte>>, blockLen: nat, command: string)
    requires command != "" && Solid(command) && command !in {"00", "01", "02"}
    ensures Handle(blocks, blockLen, command + "\n") == (Fail, blocks)
  {
    hide Split, LStrip, RStrip;
    StripLine(command);
    SplitField(command, "");
  }

  /** The lines themselves: addresses have their least significant byte first; the
      driver writes capital digits, the disk small ones. */
  lemma WireExample()
    ensures RdLine(258) == "02 02010000\n" && WrLine(1, [171]) == "01 01000000 AB\n"
    ensures AckText(Data([171])) == "00 ab\n"
  {
    hide HexText, LowText, PutHex, LowHex, LittleEndian;
    SmallAddresses();
    DigitsExample();
    OneByte(171);
    HexTextFour([2, 1, 0, 0]);
    HexTextFour([1, 0, 0, 0]);
    assert "02" + "01" + "00" + "00" == "02010000" && "01" + "00" + "00" + "00" == "01000000";
  }

  lemma SmallAddresses()
    ensures LittleEndian(258) == [2, 1, 0, 0] && LittleEndian(1) == [1, 0, 0, 0]
  {
  }

  lemma DigitsExample()
    ensures PutHex(0) == "00" && PutHex(1) == "01" && PutHex(2) == "02" && PutHex(171) == "AB" && LowHex(171) == "ab"
  {
  }

  lemma OneByte(x: Byte)
    ensures HexText([x]) == PutHex(x) && LowText([x]) == LowHex(x)
  {
    hide PutHex, LowHex;
    assert [x][1..] == [];
    assert HexText([]) == "" && LowText([]) == "";
  }

  // ------------------------------------------------------------- the driver

  /** How a driver call ends: DISK_SUCCESS, DISK_FAILURE, or not at all, waiting
      for a disk process that has died. */
  datatype Status = Success | Failure | Hung

  /** The first line of a text that has one, without its '\n'. */
  function FirstLine(s: string): string
    requires '\n' in s
  {
    if s[0] == '\n' then "" else [s[0]] + FirstLine(s[1..])
  }

  lemma {:induction false} FirstLineOf(s: string)
    requires '\n' !in s
    ensures FirstLine(s + "\n") == s
  {
    if s != "" {
      assert (s + "\n")[1..] == s[1..] + "\n";
      FirstLineOf(s[1..]);
      assert [s[0]] + s[1..] == s;
    }
  }

  /** Both ends of the serial line. */
  class Link {
    var up: string          // written by the driver, not yet read by the disk
    var down: string        // written by the disk, not yet read by the driver
    var blocks: seq<seq<Byte>>
    const blockLen: nat

    ghost predicate Valid()
      reads this
    {
      0 < blockLen && forall i :: 0 <= i < |blocks| ==> |blocks[i]| == blockLen
    }

    /** Nothing is left unread in either direction. */
    ghost predicate Quiet()
      reads this
    {
      up == "" && down == ""
    }

    method Putc(c: char)
      modifies this`up
      ensures up == old(up) + [c]
    {
      up := up + [c];
    }

    method Getc() returns (c: char)
      requires down != ""
      modifies this`down
      ensures old(down) == [c] + down
    {
      c := down[0];
      down := down[1..];
    }

    method Puth(x: Byte)
      modifies this`up
      ensures up == old(up) + PutHex(x)
    {
      Putc(Itox(x / 16));
      Putc(Itox(x % 16));
    }

    method Geth() returns (x: Byte)
      requires |down| >= 2
      modifies this`down
      ensures x == GetHex(old(down)[0], old(down)[1]) && down == old(down)[2..]
    {
      var c := Getc();
      var d := Getc();
      x := GetHex(c, d);
    }

    method AddrPuth(a: nat)
      requires a < 0x1_0000_0000
      modifies this`up
      ensures up == old(up) + HexText(LittleEndian(a))
    {
      var bs := LittleEndian(a);
      HexTextFour(bs);
      Puth(bs[0]);
      Puth(bs[1]);
      Puth(bs[2]);
      Puth(bs[3]);
    }

    method DataPuth(x: seq<Byte>)
      modifies this`up
      ensures up == old(up) + HexText(x)
    {
      var i := 0;
      while i < |x|
        invariant i <= |x| && up + HexText(x[i..]) == old(up) + HexText(x)
      {
        assert x[i..][1..] == x[i + 1..];
        Puth(x[i]);
        i := i + 1;
      }
    }

    /** data_geth: n bytes, in either case of hex digits.  It waits for ever for more
        than the line has (`ok` is false). */
    method DataGeth(x: array<Byte>, n: nat, ghost bs: seq<Byte>) returns (ok: bool)
      requires n <= x.Length && down == LowText(bs) + "\n"
      modifies this`down, x
      ensures ok <==> n <= |bs|
      ensures ok ==> down == LowText(bs[n..]) + "\n"
      ensures var m := if ok then n else |bs|;
              x[..m] == bs[..m] && x[m..] == old(x[m..])
    {
      hide *;
      var i := 0;
      assert bs[0..] == bs;
      while i < n
        invariant i <= n && i <= |bs| && down == LowText(bs[i..]) + "\n"
        invariant x[..i] == bs[..i] && forall k :: i <= k < x.Length ==> x[k] == old(x[k])
      {
        NextHex(bs, i);
        if |down| < 2 { return false; }
        x[i] := Geth();
        i := i + 1;
      }
      return true;
    }

    /** The disk process reads the line and answers it, unless it dies of it. */
    method Serve(ghost line: string) returns (alive: bool)
      requires '\n' !in line && up == line + "\n" && Valid()
      modifies this`up, this`down, this`blocks
      ensures var (ack, after) := Handle(old(blocks), blockLen, old(up));
              && alive == (ack != Crash) && blocks == after
              && (alive ==> up == "" && down == old(down) + AckText(ack))
    {
      FirstLineOf(line);
      var req := FirstLine(up);
      var (ack, after) := Handle(blocks, blockLen, req + "\n");
      up := up[|req| + 1..];
      blocks := after;
      alive := ack != Crash;
      if alive { down := down + AckText(ack); }
    }

    /** Read an acknowledgement without data. */
    method GetAck() returns (ok: bool)
      requires down == "00\n" || down == "01\n"
      modifies this`down
      ensures down == "" && (ok <==> old(down) == "00\n")
    {
      var c := Geth();
      ok := c == 0;
      var eol := Getc();
    }

    /** disk_wr. */
    method DiskWr(a: nat, x: seq<Byte>) returns (status: Status)
      requires Valid() && Quiet() && a < 0x1_0000_0000
      modifies this
      ensures status == Hung <==> x == [] || (a >= 0x8000_0000 && |x| == blockLen)
      ensures status == Success <==> |x| == blockLen && a < 0x8000_0000 && a < |old(blocks)|
      ensures status != Hung ==> Quiet()
      ensures Valid() && blocks == if status == Success then old(blocks)[a := x] else old(blocks)
    {
      hide HexText, LittleEndian, Handle;
      var i := 0;
      while i < 3
        invariant Valid() && Quiet() && blocks == old(blocks)
        invariant 0 < i ==> x != [] && ((a < 0x8000_0000 && a >= |blocks|) || |x| != blockLen)
      {
        WrHandled(blocks, blockLen, a, x);
        SolidText(LittleEndian(a));
        SolidText(x);
        Puth(0x01);
        Putc(' ');
        AddrPuth(a);
        Putc(' ');
        DataPuth(x);
        Putc('\n');
        ghost var line := "01 " + HexText(LittleEndian(a)) + " " + HexText(x);
        NoNewline(LittleEndian(a), x);
        assert up == line + "\n" == WrLine(a, x);
        var alive := Serve(line);
        if !alive { return Hung; }
        var ok := GetAck();
        if ok { return Success; }
        i := i + 1;
      }
      return Failure;
    }

    /** Read what follows the acknowledgement of a read. */
    method GetBlock(x: array<Byte>, n: nat, ghost bs: seq<Byte>) returns (ok: bool)
      requires n <= x.Length && down == " " + LowText(bs) + "\n"
      modifies this`down, x
      ensures ok <==> n <= |bs|
      ensures ok ==> down == (LowText(bs[n..]) + "\n")[1..]
      ensures x[..] == if ok then bs[..n] + old(x[n..]) else bs + old(x[|bs|..])
    {
      hide LowText;
      assert down == " " + (LowText(bs) + "\n");
      var sep := Getc();
      assert ([sep] + down)[1..] == down;
      ok := DataGeth(x, n, bs);
      ghost var m := if ok then n else |bs|;
      assert x[..] == x[..m] + x[m..] && bs[..|bs|] == bs;
      if ok {
        ghost var left := down;
        var eol := Getc();
        assert ([eol] + down)[1..] == down && left[1..] == down;
      }
    }

    /** disk_rd into the first n bytes of x.  Asked for less than a block, it leaves
        the rest of the answer unread; asked for more, it never returns. */
    method DiskRd(a: nat, x: array<Byte>, n: nat) returns (status: Status)
      requires Valid() && Quiet() && a < 0x1_0000_0000 && n <= x.Length
      modifies this, x
      ensures Valid() && blocks == old(blocks)
      ensures status == Hung <==> a >= 0x8000_0000 || (a < |blocks| && blockLen < n)
      ensures status == Success <==> a < 0x8000_0000 && a < |blocks| && n <= blockLen
      ensures status == Success ==> up == "" && down == (LowText(blocks[a][n..]) + "\n")[1..]
      ensures status == Failure || (status == Success && n == blockLen) ==> Quiet()
      ensures x[..] == if a < 0x8000_0000 && a < |blocks|
                       then (if n <= blockLen then blocks[a][..n] + old(x[n..]) else blocks[a] + old(x[blockLen..]))
                       else old(x[..])
    {
      hide HexText, LittleEndian, Handle, LowText;
      var i := 0;
      while i < 3
        invariant Valid() && Quiet() && blocks == old(blocks) && x[..] == old(x[..])
        invariant 0 < i ==> |blocks| <= a < 0x8000_0000
      {
        RdHandled(blocks, blockLen, a);
        Puth(0x02);
        Putc(' ');
        AddrPuth(a);
        Putc('\n');
        ghost var line := "02 " + HexText(LittleEndian(a));
        NoNewline(LittleEndian(a), []);
        assert up == line + "\n" == RdLine(a);
        var alive := Serve(line);
        if !alive { return Hung; }
        var c := Geth();
        if c == 0x00 {
          var ok := GetBlock(x, n, blocks[a]);
          if !ok { return Hung; }
          if n == blockLen { NothingLeft(blocks[a]); }
          return Success;
        } else {
          var eol := Getc();
        }
        i := i + 1;
      }
      return Failure;
    }

    /** What is written at an address is what is read there, and nowhere else. */
    method WriteThenRead(a: nat, data: seq<Byte>, b: nat, x: array<Byte>) returns (w: Status, r: Status)
      requires Valid() && Quiet() && a < 0x8000_0000 && b < 0x8000_0000 && a < |blocks| && b < |blocks|
      requires |data| == blockLen == x.Length
      modifies this, x
      ensures w == r == Success && Quiet()
      ensures x[..] == if a == b then data else old(blocks)[b]
    {
      w := DiskWr(a, data);
      r := DiskRd(b, x, blockLen);
    }
  }

  /** The text of the bytes from i on gives byte i, unless there is none. */
  lemma NextHex(bs: seq<Byte>, i: nat)
    requires i <= |bs|
    ensures var t := LowText(bs[i..]) + "\n";
            if i == |bs| then t == "\n"
            else |t| > 2 && GetHex(t[0], t[1]) == bs[i] && t[2..] == LowText(bs[i + 1..]) + "\n"
  {
    if i < |bs| {
      assert bs[i..][1..] == bs[i + 1..];
      HexRoundTrip(bs[i]);
    }
  }

  lemma NothingLeft(bs: seq<Byte>)
    ensures (LowText(bs[|bs|..]) + "\n")[1..] == ""
  {
  }

  lemma HexTextFour(bs: seq<Byte>)
    requires |bs| == 4
    ensures HexText(bs) == PutHex(bs[0]) + PutHex(bs[1]) + PutHex(bs[2]) + PutHex(bs[3])
  {
    assert bs[1..][1..] == bs[2..] && bs[2..][1..] == bs[3..] && bs[3..][1..] == [];
    assert HexText(bs[3..]) == PutHex(bs[3]) + HexText([]);
    assert HexText(bs[2..]) == PutHex(bs[2]) + HexText(bs[3..]);
    assert HexText(bs[1..]) == PutHex(bs[1]) + HexText(bs[2..]);
  }

  lemma NoNewline(bs: seq<Byte>, cs: seq<Byte>)
    ensures '\n' !in "01 " + HexText(bs) + " " + HexText(cs)
    ensures '\n' !in "02 " + HexText(bs)
  {
    SolidText(bs);
    SolidText(cs);
  }
}
