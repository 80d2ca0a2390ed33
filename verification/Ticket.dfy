/** Tickets: a signature type, a signature of a length that depends on it, and the ticket data behind it. */
module Ticket {
  import opened Bytes
  import opened VirtualFiles

  const TICKET_SIZE := 0x2C0

  /** The signature types, in the order of their codes. */
  const RSA4096_SHA1 := 0x1_0000
  const RSA2048_SHA1 := 0x1_0001
  const ECDSA_SHA1 := 0x1_0002
  const RSA4096_SHA256 := 0x1_0003
  const RSA2048_SHA256 := 0x1_0004
  const ECDSA_SHA256 := 0x1_0005

  function SignatureLength(kind: nat): nat {
    if kind == RSA4096_SHA1 || kind == RSA4096_SHA256 then 0x200
    else if kind == RSA2048_SHA1 || kind == RSA2048_SHA256 then 0x100
    else if kind == ECDSA_SHA1 || kind == ECDSA_SHA256 then 0x3C
    else 0x14
  }

  /** The length of a signature with its padding. */
  function GetSignatureSize(signature: seq<byte>): int {
    var result := |signature|;
    if result >= 0x100 || result <= 0x200 then result + 0x3C
    else if result == 0x3C then result + 0x40
    else result + 0x14
  }

  /** Every signature is padded by 0x3C bytes: the cases for short signatures are never reached. */
  lemma PaddingIsAlways3C(signature: seq<byte>)
    ensures GetSignatureSize(signature) == |signature| + 0x3C
  {
  }

  datatype Value = Value(kind: nat, signature: seq<byte>, content: seq<byte>)

  datatype Parsed = TooShort | Parsed(ticket: Value)

  /** Where the ticket data starts. */
  function DataAt(kind: nat): nat {
    4 + SignatureLength(kind) + 0x3C
  }

  function Parse(c: seq<byte>): Parsed {
    if |c| < TICKET_SIZE then TooShort else
    var kind := LEValue(c[0..4]);
    var at := DataAt(kind);
    Parsed(Value(kind, c[4..4 + SignatureLength(kind)], c[at..TICKET_SIZE] + Zeros(at)))
  }

  /** A file after a ticket was exported to it. */
  function Exported(f: seq<byte>, t: Value): seq<byte>
    requires GetSignatureSize(t.signature) + 4 <= TICKET_SIZE == |t.content|
  {
    var at := GetSignatureSize(t.signature) + 4;
    var typed := Overwrite(f, 0, LE(t.kind, 4));
    Overwrite(Overwrite(typed, 4, t.signature), at, t.content[..TICKET_SIZE - at])
  }

  /** Reads the bytes from `at` to the end of a ticket into the front of a zeroed structure. */
  method ReadData(tik: BackingFile, at: nat) returns (content: seq<byte>)
    requires at <= TICKET_SIZE <= |tik.contents|
    ensures content == tik.contents[at..TICKET_SIZE] + Zeros(at)
  {
    var ticket := new byte[TICKET_SIZE](_ => 0);
    var count := tik.ReadType(ticket, 0, TICKET_SIZE - at, at);
    content := ticket[..];
    assert content == tik.contents[at..TICKET_SIZE] + Zeros(at);
  }

  class Ticket {
    var kind: nat
    var signature: seq<byte>
    var content: seq<byte>

    ghost function Contents(): Value
      reads this
    {
      Value(kind, signature, content)
    }

    /** Parses a file; a file that is too short leaves the ticket unparsed. */
    constructor (tik: BackingFile)
      ensures var r := Parse(tik.contents);
        Contents() == if r.Parsed? then r.ticket else Value(0, [], Zeros(TICKET_SIZE))
    {
      kind, signature, content := 0, [], Zeros(TICKET_SIZE);
      new;
      hide LEValue, Zeros;
      if |tik.contents| < TICKET_SIZE {
        return;
      }
      var ok: bool;
      var head: seq<byte>;
      ok, head := tik.ReadExactly(4, 0);
      kind := LEValue(head);
      var offset := 4;
      ok, signature := tik.ReadExactly(SignatureLength(kind), offset);
      offset := offset + GetSignatureSize(signature);
      content := ReadData(tik, offset);
    }

    /** Writes the type, the signature and the data; the assertion at the end fails on a longer file. */
    method Export(file: BackingFile) returns (ok: bool)
      requires GetSignatureSize(signature) + 4 <= TICKET_SIZE == |content|
      modifies file
      ensures file.contents == Exported(old(file.contents), Contents())
      ensures ok == (|file.contents| == TICKET_SIZE)
    {
      file.WriteType(LE(kind, 4), 0);
      file.WriteType(signature, 4);
      var offset := GetSignatureSize(signature) + 4;
      file.WriteType(content[..TICKET_SIZE - offset], offset);
      ok := |file.contents| == TICKET_SIZE;
    }
  }

  // ---- the round trip -----------------------------------------------------------------------------

  /** What an export leaves in the file: the three parts in place, the rest of the file kept or zero. */
  lemma ExportedParts(f: seq<byte>, t: Value)
    requires t.kind < U32_LIMIT && 0 < |t.signature| == SignatureLength(t.kind) && |t.content| == TICKET_SIZE
    ensures var at, e := DataAt(t.kind), Exported(f, t);
      && |e| == (if |f| < TICKET_SIZE then TICKET_SIZE else |f|)
      && e[0..4] == LE(t.kind, 4) && e[4..4 + |t.signature|] == t.signature
      && e[at..TICKET_SIZE] == t.content[..TICKET_SIZE - at]
      && (forall i :: 4 + |t.signature| <= i < at ==> e[i] == if i < |f| then f[i] else 0)
  {
    var at, n := DataAt(t.kind), 4 + |t.signature|;
    var typed := Overwrite(f, 0, LE(t.kind, 4));
    var signed := Overwrite(typed, 4, t.signature);
    var e := Overwrite(signed, at, t.content[..TICKET_SIZE - at]);
    PaddingIsAlways3C(t.signature);
    hide Overwrite, LE;
    assert signed[0..4] == typed[0..4] == LE(t.kind, 4);
    assert e[0..4] == signed[0..4];
    assert e[4..n] == signed[4..n];
  }

  /** The ticket has its signature in c[4..4 + n], its data from byte 0x40 + n on, and zeros behind that data. */
  ghost predicate CutAt(c: seq<byte>, t: Value, n: nat)
    requires |c| >= 0x2C0 && n <= 0x200
  {
    && t.signature == c[4..4 + n] && |t.content| == 0x2C0
    && (forall i :: 0 <= i < 0x2C0 - (0x40 + n) ==> t.content[i] == c[0x40 + n + i])
    && (forall i :: 0x2C0 - (0x40 + n) <= i < 0x2C0 ==> t.content[i] == 0)
  }

  /** Every file of a ticket's size, by position: the type is the first four bytes, and it alone decides where the
      signature ends and the data starts. */
  lemma ParsedByPosition(c: seq<byte>)
    requires |c| >= 0x2C0
    ensures var r, kind := Parse(c), Word(c[0], c[1], c[2], c[3]);
      && r.Parsed? && r.ticket.kind == kind
      && (kind == 0x1_0000 || kind == 0x1_0003 ==> CutAt(c, r.ticket, 0x200))
      && (kind == 0x1_0001 || kind == 0x1_0004 ==> CutAt(c, r.ticket, 0x100))
      && (kind == 0x1_0002 || kind == 0x1_0005 ==> CutAt(c, r.ticket, 0x3C))
      && (kind < 0x1_0000 || kind > 0x1_0005 ==> CutAt(c, r.ticket, 0x14))
  {
    hide LEValue;
    FourBytes(c[0..4]);
    var kind := LEValue(c[0..4]);
    CutIsParsed(c, kind);
  }

  lemma CutIsParsed(c: seq<byte>, kind: nat)
    requires |c| >= 0x2C0 && kind == LEValue(c[0..4])
    ensures Parse(c).Parsed? && Parse(c).ticket.kind == kind
    ensures SignatureLength(kind) <= 0x200 && CutAt(c, Parse(c).ticket, SignatureLength(kind))
  {
    hide LEValue;
  }

  lemma ParsedIsWellFormed(c: seq<byte>)
    requires |c| >= TICKET_SIZE
    ensures var t := Parse(c).ticket;
      && t.kind < U32_LIMIT && 0 < |t.signature| == SignatureLength(t.kind) && |t.content| == TICKET_SIZE
      && t.content[TICKET_SIZE - DataAt(t.kind)..] == Zeros(DataAt(t.kind))
  {
    hide LEValue;
    Pow256Values();
  }

  /** A ticket is recovered from any file that shows its three parts. */
  lemma PartsParse(e: seq<byte>, t: Value)
    requires t.kind < U32_LIMIT && |t.signature| == SignatureLength(t.kind) && |t.content| == TICKET_SIZE <= |e|
    requires t.content[TICKET_SIZE - DataAt(t.kind)..] == Zeros(DataAt(t.kind))
    requires e[0..4] == LE(t.kind, 4) && e[4..4 + |t.signature|] == t.signature
    requires e[DataAt(t.kind)..TICKET_SIZE] == t.content[..TICKET_SIZE - DataAt(t.kind)]
    ensures Parse(e) == Parsed(t)
  {
    hide LEValue, LE, Zeros;
    Pow256Values();
    LERoundTrip(t.kind, 4);
    var n := TICKET_SIZE - DataAt(t.kind);
    assert t.content == t.content[..n] + t.content[n..];
  }

  /** Exporting a ticket that was parsed from `c` and parsing the result gives the same ticket; a file that was
      no longer than a ticket ends up exactly as long as one. */
  lemma ExportRoundTrip(c: seq<byte>, f: seq<byte>)
    requires |c| >= TICKET_SIZE
    ensures var t := Parse(c).ticket; Parse(Exported(f, t)) == Parsed(t)
    ensures |Exported(f, Parse(c).ticket)| == TICKET_SIZE <==> |f| <= TICKET_SIZE
  {
    var t := Parse(c).ticket;
    ParsedIsWellFormed(c);
    ExportedParts(f, t);
    PartsParse(Exported(f, t), t);
  }

  /** An export to an empty file is the parsed file cut to a ticket's size, with the padding of the signature
      cleared. */
  lemma ExportNormalises(c: seq<byte>)
    requires |c| >= TICKET_SIZE
    ensures var t := Parse(c).ticket;
      Exported([], t) == c[..4 + |t.signature|] + Zeros(0x3C) + c[DataAt(t.kind)..TICKET_SIZE]
  {
    hide LE, LEValue, Overwrite, Exported, Zeros;
    var t := Parse(c).ticket;
    var n, at, e := 4 + |t.signature|, DataAt(t.kind), Exported([], t);
    ParsedIsWellFormed(c);
    ExportedParts([], t);
    LEValueRoundTrip(c[0..4]);
    PartsJoin(e, c, n, at);
  }

  lemma PartsJoin(e: seq<byte>, c: seq<byte>, n: nat, at: nat)
    requires 4 <= n <= at <= TICKET_SIZE == |e| && TICKET_SIZE <= |c|
    requires e[0..4] == c[0..4] && e[4..n] == c[4..n] && e[at..TICKET_SIZE] == c[at..TICKET_SIZE]
    requires forall i :: n <= i < at ==> e[i] == 0
    ensures e == c[..n] + Zeros(at - n) + c[at..TICKET_SIZE]
  {
    assert e[..n] == c[..n] by {
      assert e[..n] == e[0..4] + e[4..n] && c[..n] == c[0..4] + c[4..n];
    }
    assert e == e[..n] + e[n..at] + e[at..TICKET_SIZE];
  }
}
