/** Commands between fio client and server: sent in fragments, received and put together again (server.c). */
module NetCommand {
  import opened Bytes
  import opened Basics

  const SERVER_VER: nat := 6
  const MAX_PDU: nat := 1024
  const F_MORE: nat := 1
  const HDR_SIZE: nat := 24
  const CRC_SZ: nat := 20

  /** struct fio_net_cmd without its payload. */
  datatype Hdr = Hdr(version: nat, opcode: nat, flags: nat, tag: nat, pduLen: nat, cmdCrc: nat, pduCrc: nat)

  /** A command as the receiver hands it on. */
  datatype Cmd = Cmd(opcode: nat, flags: nat, tag: nat, pduLen: nat, payload: seq<byte>)

  /** The checksum of a run of bytes, any function to 16 bits. */
  type Crc = seq<byte> -> nat

  ghost predicate Is16Bit(crc: Crc)
  {
    forall s :: crc(s) < 0x1_0000
  }

  // ---- headers ----

  /** The fields before the checksums, little endian. */
  function Front(h: Hdr): (r: seq<byte>)
    ensures |r| == CRC_SZ
  {
    Encode(h.version, 2) + Encode(h.opcode, 2) + Encode(h.flags, 4) + Encode(h.tag, 8) + Encode(h.pduLen, 4)
  }

  function HdrBytes(h: Hdr): (r: seq<byte>)
    ensures |r| == HDR_SIZE
  {
    Front(h) + Encode(h.cmdCrc, 2) + Encode(h.pduCrc, 2)
  }

  function ParseHdr(s: seq<byte>): Hdr
    requires |s| == HDR_SIZE
  {
    Hdr(Decode(s[..2]), Decode(s[2..4]), Decode(s[4..8]), Decode(s[8..16]), Decode(s[16..20]), Decode(s[20..22]),
        Decode(s[22..24]))
  }

  ghost predicate Fits(h: Hdr)
  {
    && h.version < Pow256(2) && h.opcode < Pow256(2) && h.flags < Pow256(4) && h.tag < Pow256(8) && h.pduLen < Pow256(4)
    && h.cmdCrc < Pow256(2) && h.pduCrc < Pow256(2)
  }

  lemma HdrRoundTrip(h: Hdr)
    requires Fits(h)
    ensures ParseHdr(HdrBytes(h)) == h && HdrBytes(h)[..CRC_SZ] == Front(h)
  {
    hide Encode, Decode, Pow256;
    FrontParts(Encode(h.version, 2), Encode(h.opcode, 2), Encode(h.flags, 4), Encode(h.tag, 8), Encode(h.pduLen, 4));
    HdrParts(Front(h), Encode(h.cmdCrc, 2), Encode(h.pduCrc, 2));
    DecodeEncode(h.version, 2);
    DecodeEncode(h.opcode, 2);
    DecodeEncode(h.flags, 4);
    DecodeEncode(h.tag, 8);
    DecodeEncode(h.pduLen, 4);
    DecodeEncode(h.cmdCrc, 2);
    DecodeEncode(h.pduCrc, 2);
  }

  lemma FrontParts(a: seq<byte>, b: seq<byte>, c: seq<byte>, d: seq<byte>, e: seq<byte>)
    requires |a| == 2 && |b| == 2 && |c| == 4 && |d| == 8 && |e| == 4
    ensures var s := a + b + c + d + e;
            s[..2] == a && s[2..4] == b && s[4..8] == c && s[8..16] == d && s[16..20] == e
  {}

  lemma HdrParts(front: seq<byte>, f: seq<byte>, g: seq<byte>)
    requires |front| == CRC_SZ && |f| == 2 && |g| == 2
    ensures var s := front + f + g;
            && s[..2] == front[..2] && s[2..4] == front[2..4] && s[4..8] == front[4..8] && s[8..16] == front[8..16]
            && s[16..20] == front[16..20] && s[20..22] == f && s[22..24] == g && s[..CRC_SZ] == front
  {}

  // ---- what goes over the wire ----

  /** The header of a fragment, checksums filled in. */
  function FragmentHdr(crc: Crc, opcode: nat, tag: nat, pdu: seq<byte>, more: bool): Hdr
  {
    var h := Hdr(SERVER_VER, opcode, if more then F_MORE else 0, tag, |pdu|, 0, 0);
    h.(cmdCrc := crc(Front(h)), pduCrc := if pdu == [] then 0 else crc(pdu))
  }

  function Fragment(crc: Crc, opcode: nat, tag: nat, pdu: seq<byte>, more: bool): seq<byte>
  {
    HdrBytes(FragmentHdr(crc, opcode, tag, pdu, more)) + pdu
  }

  function Wire(crc: Crc, opcode: nat, tag: nat, payload: seq<byte>): seq<byte>
  {
    if |payload| <= MAX_PDU then Fragment(crc, opcode, tag, payload, false)
    else Fragment(crc, opcode, tag, payload[..MAX_PDU], true) + Wire(crc, opcode, tag, payload[MAX_PDU..])
  }

  // ---- receiving ----

  /** verify_convert_cmd on the bytes of a header. */
  predicate HdrOk(crc: Crc, s: seq<byte>)
    requires |s| == HDR_SIZE
  {
    var h := ParseHdr(s);
    crc(s[..CRC_SZ]) == h.cmdCrc && h.version == SERVER_VER && h.pduLen <= MAX_PDU
  }

  /** A fragment joins what came before it. */
  function Join(acc: Option<Cmd>, h: Hdr, pdu: seq<byte>): Cmd
  {
    match acc
    case None => Cmd(h.opcode, h.flags, h.tag, h.pduLen, pdu)
    case Some(c) => c.(pduLen := (c.pduLen + h.pduLen) % U32, payload := c.payload + pdu)
  }

  /** The MORE flag is internal. */
  function Finish(c: Cmd): Cmd
  {
    c.(flags := c.flags - c.flags % 2)
  }

  /** What fio_net_recv_cmd returns for a stream, and what it leaves unread. */
  function Receive(crc: Crc, bytes: seq<byte>, acc: Option<Cmd>): (Option<Cmd>, seq<byte>)
    decreases |bytes|
  {
    if |bytes| < HDR_SIZE then (None, [])
    else
      var h, rest := ParseHdr(bytes[..HDR_SIZE]), bytes[HDR_SIZE..];
      if !HdrOk(crc, bytes[..HDR_SIZE]) || (acc.Some? && acc.value.opcode != h.opcode) then (None, rest)
      else if h.pduLen == 0 then (Some(Finish(if acc.Some? then acc.value else Join(None, h, []))), rest)
      else if |rest| < h.pduLen then (None, [])
      else
        var pdu, left := rest[..h.pduLen], rest[h.pduLen..];
        if crc(pdu) != h.pduCrc then (None, left)
        else if h.flags % 2 == 1 then Receive(crc, left, Some(Join(acc, h, pdu)))
        else (Some(Finish(Join(acc, h, pdu))), left)
  }

  /** One fragment is recognised, whatever follows it. */
  lemma FragmentParsed(crc: Crc, opcode: nat, tag: nat, pdu: seq<byte>, more: bool, rest: seq<byte>)
    requires Is16Bit(crc) && opcode < Pow256(2) && tag < Pow256(8) && |pdu| <= MAX_PDU
    ensures var s := Fragment(crc, opcode, tag, pdu, more) + rest;
            && |s| >= HDR_SIZE + |pdu| && HdrOk(crc, s[..HDR_SIZE])
            && ParseHdr(s[..HDR_SIZE]) == FragmentHdr(crc, opcode, tag, pdu, more)
            && s[HDR_SIZE..][..|pdu|] == pdu && s[HDR_SIZE..][|pdu|..] == rest
  {
    hide Front, HdrBytes, ParseHdr;
    var h := FragmentHdr(crc, opcode, tag, pdu, more);
    assert Pow256(2) == 0x1_0000 && Pow256(4) == U32;
    HdrRoundTrip(h);
    var s := Fragment(crc, opcode, tag, pdu, more) + rest;
    assert s[..HDR_SIZE] == HdrBytes(h);
    assert Front(h) == Front(h.(cmdCrc := 0, pduCrc := 0)) by { FrontOnly(h); }
  }

  lemma FrontOnly(h: Hdr)
    ensures Front(h) == Front(h.(cmdCrc := 0, pduCrc := 0))
  {}

  /** The remaining fragments of a command. */
  lemma {:induction false} ReceiveRest(crc: Crc, opcode: nat, tag: nat, payload: seq<byte>, rest: seq<byte>, c: Cmd)
    requires Is16Bit(crc) && opcode < Pow256(2) && tag < Pow256(8) && payload != [] && c.opcode == opcode
    requires c.pduLen + |payload| < U32
    ensures Receive(crc, Wire(crc, opcode, tag, payload) + rest, Some(c))
            == (Some(Finish(c.(pduLen := c.pduLen + |payload|, payload := c.payload + payload))), rest)
    decreases |payload|
  {
    hide Fragment, HdrOk, ParseHdr, Is16Bit, Front, HdrBytes, Pow256;
    if |payload| <= MAX_PDU {
      FragmentParsed(crc, opcode, tag, payload, false, rest);
    } else {
      var p, q := payload[..MAX_PDU], payload[MAX_PDU..];
      var w := Wire(crc, opcode, tag, q);
      FragmentParsed(crc, opcode, tag, p, true, w + rest);
      assert Wire(crc, opcode, tag, payload) + rest == Fragment(crc, opcode, tag, p, true) + (w + rest);
      var d := Join(Some(c), FragmentHdr(crc, opcode, tag, p, true), p);
      ReceiveRest(crc, opcode, tag, q, rest, d);
      assert c.payload + p + q == c.payload + payload;
    }
  }

  /** Whatever is sent is received: same opcode, tag, length and payload, and nothing of what follows is read. */
  lemma RoundTrip(crc: Crc, opcode: nat, tag: nat, payload: seq<byte>, rest: seq<byte>)
    requires Is16Bit(crc) && opcode < Pow256(2) && tag < Pow256(8) && |payload| < U32
    ensures Receive(crc, Wire(crc, opcode, tag, payload) + rest, None)
            == (Some(Cmd(opcode, 0, tag, |payload|, payload)), rest)
  {
    hide Fragment, HdrOk, ParseHdr, Is16Bit;
    if |payload| <= MAX_PDU {
      FragmentParsed(crc, opcode, tag, payload, false, rest);
    } else {
      var p, q := payload[..MAX_PDU], payload[MAX_PDU..];
      var w := Wire(crc, opcode, tag, q);
      FragmentParsed(crc, opcode, tag, p, true, w + rest);
      assert Wire(crc, opcode, tag, payload) + rest == Fragment(crc, opcode, tag, p, true) + (w + rest);
      var d := Join(None, FragmentHdr(crc, opcode, tag, p, true), p);
      ReceiveRest(crc, opcode, tag, q, rest, d);
      assert p + q == payload;
    }
  }

  // ---- exactly which streams are commands ----

  /** A header and its payload, as bytes of a stream. */
  datatype Frag = Frag(hdr: seq<byte>, pdu: seq<byte>)
  {
    /** Header checksum, version 6, payload length and payload checksum are right. */
    ghost predicate Good(crc: Crc)
    {
      && |hdr| == 24 && |pdu| <= 1024
      && Decode(hdr[20..22]) == crc(hdr[..20]) && hdr[0] == 6 && hdr[1] == 0
      && Decode(hdr[16..20]) == |pdu| && (pdu != [] ==> Decode(hdr[22..24]) == crc(pdu))
    }

    ghost function Opcode(): nat
      requires |hdr| == 24
    {
      Decode(hdr[2..4])
    }

    /** The MORE flag is set and there is payload, so that another fragment follows. */
    ghost predicate Continues()
      requires |hdr| == 24
    {
      hdr[4] as nat % 2 == 1 && pdu != []
    }

    /** A good fragment of a command, the last one or not. */
    ghost predicate PartOf(crc: Crc, opcode: nat, last: bool)
    {
      Good(crc) && Opcode() == opcode && (Continues() <==> !last)
    }
  }

  /** All fragments are good and of one opcode, and each but the last says that more follows. */
  ghost predicate Complete(crc: Crc, frags: seq<Frag>, opcode: nat)
  {
    frags != [] && forall i | 0 <= i < |frags| :: frags[i].PartOf(crc, opcode, i == |frags| - 1)
  }

  ghost function Stream(frags: seq<Frag>): seq<byte>
  {
    if frags == [] then [] else frags[0].hdr + frags[0].pdu + Stream(frags[1..])
  }

  ghost function Payload(frags: seq<Frag>): seq<byte>
  {
    if frags == [] then [] else frags[0].pdu + Payload(frags[1..])
  }

  /** The command that the fragments make up. */
  ghost function Made(frags: seq<Frag>): Cmd
    requires frags != [] && |frags[0].hdr| == 24
  {
    var h, flags := frags[0].hdr, Decode(frags[0].hdr[4..8]);
    Cmd(Decode(h[2..4]), flags - flags % 2, Decode(h[8..16]), |Payload(frags)| % 0x1_0000_0000, Payload(frags))
  }

  lemma CompleteMore(crc: Crc, f: Frag, rest: seq<Frag>, opcode: nat)
    requires rest != []
    ensures Complete(crc, [f] + rest, opcode) <==> f.PartOf(crc, opcode, false) && Complete(crc, rest, opcode)
  {
    hide Frag.PartOf;
    var s := [f] + rest;
    assert s[0] == f;
    assert forall i | 0 <= i < |rest| :: s[i + 1] == rest[i];
    if Complete(crc, s, opcode) {
      forall i | 0 <= i < |rest|
        ensures rest[i].PartOf(crc, opcode, i == |rest| - 1)
      {
        assert s[i + 1].PartOf(crc, opcode, i + 1 == |s| - 1);
      }
    }
  }

  /** What the receiver finds in the bytes of a header. */
  lemma HdrInBytes(crc: Crc, s: seq<byte>)
    requires |s| == 24
    ensures HdrOk(crc, s) <==> Decode(s[20..22]) == crc(s[..20]) && s[0] == 6 && s[1] == 0 && Decode(s[16..20]) <= 1024
    ensures ParseHdr(s).flags % 2 == s[4] as nat % 2
  {
    FieldIs(s[..2], 6);
    assert Encode(6, 2) == [6, 0] by { assert Encode(0, 1) == [0]; }
    assert Pow256(2) == 65536;
    assert s[4..8][0] == s[4] && Decode(s[4..8]) == s[4] as nat + 256 * Decode(s[4..8][1..]);
    assert s[..2] == [s[0], s[1]];
  }

  /** A fragment is good exactly if the receiver's own tests pass. */
  lemma FragInBytes(crc: Crc, f: Frag)
    requires |f.hdr| == 24
    ensures f.Good(crc) <==> && HdrOk(crc, f.hdr) && ParseHdr(f.hdr).pduLen == |f.pdu|
                             && (f.pdu != [] ==> ParseHdr(f.hdr).pduCrc == crc(f.pdu))
    ensures ParseHdr(f.hdr).opcode == f.Opcode()
    ensures f.Continues() <==> ParseHdr(f.hdr).flags % 2 == 1 && f.pdu != []
  {
    hide Encode, Decode, Pow256;
    HdrInBytes(crc, f.hdr);
  }

  /** What came before, if anything, is of the opcode. */
  ghost predicate Awaits(acc: Option<Cmd>, opcode: nat)
  {
    acc.Some? ==> acc.value.opcode == opcode && acc.value.pduLen < U32
  }

  /** A good fragment of the expected opcode joins what came before it. */
  lemma ReceiveGood(crc: Crc, f: Frag, left: seq<byte>, acc: Option<Cmd>)
    requires f.Good(crc) && Awaits(acc, f.Opcode())
    ensures var c := Join(acc, ParseHdr(f.hdr), f.pdu);
            Receive(crc, f.hdr + f.pdu + left, acc)
            == if f.Continues() then Receive(crc, left, Some(c)) else (Some(Finish(c)), left)
  {
    hide HdrOk, ParseHdr, Frag.Good, Frag.Continues, Frag.Opcode;
    assert |f.hdr| == 24 by { Sized(crc, f); }
    FragInBytes(crc, f);
    Cut(f, left);
    assert acc.Some? && f.pdu == [] ==> acc.value.payload + f.pdu == acc.value.payload;
  }

  lemma Sized(crc: Crc, f: Frag)
    requires f.Good(crc)
    ensures |f.hdr| == 24 && |f.pdu| <= 1024
  {}

  lemma Cut(f: Frag, left: seq<byte>)
    requires |f.hdr| == HDR_SIZE
    ensures var s := f.hdr + f.pdu + left;
            s[..HDR_SIZE] == f.hdr && s[HDR_SIZE..][..|f.pdu|] == f.pdu && s[HDR_SIZE..][|f.pdu|..] == left
  {}

  /** A stream that yields a command starts with a good fragment of the expected opcode. */
  lemma ReceiveSome(crc: Crc, bytes: seq<byte>, acc: Option<Cmd>) returns (f: Frag, left: seq<byte>)
    requires Receive(crc, bytes, acc).0.Some?
    ensures bytes == f.hdr + f.pdu + left && f.Good(crc) && (acc.Some? ==> acc.value.opcode == f.Opcode())
  {
    hide HdrOk, ParseHdr, Frag.Good, Frag.Continues, Frag.Opcode;
    var hdr, rest := bytes[..HDR_SIZE], bytes[HDR_SIZE..];
    var n := ParseHdr(hdr).pduLen;
    f, left := Frag(hdr, rest[..n]), rest[n..];
    FragInBytes(crc, f);
  }

  /** What the receiver has put together after more payload. */
  ghost function Grown(c: Cmd, p: seq<byte>): Cmd
  {
    c.(pduLen := (c.pduLen + |p|) % U32, payload := c.payload + p)
  }

  /** What the receiver returns for fragments that follow those put together already. */
  ghost function Outcome(frags: seq<Frag>, acc: Option<Cmd>): Cmd
    requires acc.None? ==> frags != [] && |frags[0].hdr| == 24
  {
    if acc.Some? then Finish(Grown(acc.value, Payload(frags))) else Made(frags)
  }

  lemma JoinFirst(crc: Crc, f: Frag, rest: seq<Frag>, acc: Option<Cmd>)
    requires f.Good(crc) && Awaits(acc, f.Opcode())
    ensures var c := Join(acc, ParseHdr(f.hdr), f.pdu);
            Outcome([f] + rest, acc) == Outcome(rest, Some(c)) && Awaits(Some(c), f.Opcode())
  {
    hide Frag.Good, Frag.Opcode, Frag.Continues, ParseHdr, HdrOk, Made, Finish, Payload;
    Sized(crc, f);
    FragInBytes(crc, f);
    PayloadFirst(f, rest);
    if acc.Some? {
      GrownTwice(acc.value, f.pdu, Payload(rest));
    } else {
      MadeFirst(f, rest);
    }
  }

  lemma PayloadFirst(f: Frag, rest: seq<Frag>)
    ensures Payload([f] + rest) == f.pdu + Payload(rest)
  {
    assert ([f] + rest)[0] == f && ([f] + rest)[1..] == rest;
  }

  lemma MadeFirst(f: Frag, rest: seq<Frag>)
    requires |f.hdr| == 24 && |f.pdu| <= 1024 && ParseHdr(f.hdr).pduLen == |f.pdu|
    ensures Made([f] + rest) == Finish(Grown(Join(None, ParseHdr(f.hdr), f.pdu), Payload(rest)))
  {
    hide Decode, Payload;
    PayloadFirst(f, rest);
    assert ([f] + rest)[0] == f;
  }

  lemma GrownTwice(c: Cmd, p: seq<byte>, q: seq<byte>)
    ensures Grown(Grown(c, p), q) == Grown(c, p + q)
  {
    assert c.payload + p + q == c.payload + (p + q);
  }

  /** Complete fragments are received as the command they make up, and nothing of what follows is read. */
  lemma {:induction false} CompleteIsReceived(crc: Crc, frags: seq<Frag>, op: nat, left: seq<byte>, acc: Option<Cmd>)
    requires Complete(crc, frags, op) && Awaits(acc, op)
    ensures Receive(crc, Stream(frags) + left, acc) == (Some(Outcome(frags, acc)), left)
    decreases |frags|
  {
    hide Receive, Join, Frag.Good, Frag.Continues, Frag.Opcode, Payload, Outcome, Awaits;
    var f, rest := frags[0], frags[1..];
    assert frags == [f] + rest;
    Sized(crc, f);
    JoinFirst(crc, f, rest, acc);
    ReceiveGood(crc, f, Stream(rest) + left, acc);
    assert Stream(frags) + left == f.hdr + f.pdu + (Stream(rest) + left);
    if rest == [] {
      assert Stream(rest) + left == left;
      NoneFollow(Join(acc, ParseHdr(f.hdr), f.pdu), op);
    } else {
      CompleteMore(crc, f, rest, op);
      CompleteIsReceived(crc, rest, op, left, Some(Join(acc, ParseHdr(f.hdr), f.pdu)));
    }
  }

  lemma NoneFollow(c: Cmd, opcode: nat)
    requires Awaits(Some(c), opcode)
    ensures Outcome([], Some(c)) == Finish(c)
  {
    assert c.payload + [] == c.payload;
  }

  /** Whatever yields a command is a sequence of complete fragments, and what is left unread. */
  lemma {:induction false} ReceivedIsComplete(crc: Crc, bytes: seq<byte>, acc: Option<Cmd>, op: nat)
    returns (frags: seq<Frag>)
    requires Receive(crc, bytes, acc).0.Some? && Awaits(acc, op)
    ensures frags != [] && |frags[0].hdr| == 24 && bytes == Stream(frags) + Receive(crc, bytes, acc).1
    ensures Complete(crc, frags, if acc.Some? then op else frags[0].Opcode())
    ensures Receive(crc, bytes, acc).0 == Some(Outcome(frags, acc))
    decreases |bytes|
  {
    hide Receive, Join, Frag.Good, Frag.Continues, Frag.Opcode, Payload, Outcome;
    var f, left := ReceiveSome(crc, bytes, acc);
    Sized(crc, f);
    ReceiveGood(crc, f, left, acc);
    var c := Join(acc, ParseHdr(f.hdr), f.pdu);
    var rest: seq<Frag> := [];
    JoinFirst(crc, f, [], acc);
    if f.Continues() {
      rest := ReceivedIsComplete(crc, left, Some(c), f.Opcode());
      CompleteMore(crc, f, rest, f.Opcode());
    } else {
      NoneFollow(c, f.Opcode());
    }
    frags := [f] + rest;
    JoinFirst(crc, f, rest, acc);
    assert frags[0] == f && frags[1..] == rest;
    assert Stream(frags) == f.hdr + f.pdu + Stream(rest);
  }

  /** The fragments of one command start the stream. */
  ghost predicate Carries(crc: Crc, bytes: seq<byte>, frags: seq<Frag>, left: seq<byte>)
  {
    && frags != [] && |frags[0].hdr| == 24 && Complete(crc, frags, frags[0].Opcode())
    && bytes == Stream(frags) + left
  }

  /** The receiver yields a command exactly if the stream carries one: that one, leaving what follows it. */
  lemma ReceivedIff(crc: Crc, bytes: seq<byte>)
    ensures var (r, left) := Receive(crc, bytes, None);
            && (r.Some? ==> exists frags :: Carries(crc, bytes, frags, left) && r.value == Made(frags))
            && (forall frags, rest | Carries(crc, bytes, frags, rest) :: r == Some(Made(frags)) && left == rest)
  {
    hide Receive, Frag.Good, Frag.Continues, Frag.Opcode, Complete, Made;
    var (r, left) := Receive(crc, bytes, None);
    if r.Some? {
      var frags := ReceivedIsComplete(crc, bytes, None, 0);
      assert Carries(crc, bytes, frags, left);
    }
    forall frags: seq<Frag>, rest | Carries(crc, bytes, frags, rest)
      ensures r == Some(Made(frags)) && left == rest
    {
      CompleteIsReceived(crc, frags, frags[0].Opcode(), rest, None);
    }
  }

  /** What follows is cut short, or fails one of the tests on a fragment. */
  ghost predicate Spoilt(crc: Crc, s: seq<byte>)
  {
    || |s| < 24 || Decode(s[20..22]) != crc(s[..20]) || s[0] != 6 || s[1] != 0 || Decode(s[16..20]) > 1024
    || |s| < 24 + Decode(s[16..20])
    || (Decode(s[16..20]) > 0 && Decode(s[22..24]) != crc(s[24..24 + Decode(s[16..20])]))
  }

  /** After fragments that say more follows, one that fails a test or is of another opcode makes the receiver fail. */
  lemma {:induction false} SpoiltIsRefused(crc: Crc, frags: seq<Frag>, op: nat, s: seq<byte>, acc: Option<Cmd>)
    requires forall f <- frags :: f.PartOf(crc, op, false)
    requires Awaits(acc, op)
    requires Spoilt(crc, s) || ((frags != [] || acc.Some?) && Decode(s[2..4]) != op)
    ensures Receive(crc, Stream(frags) + s, acc).0 == None
    decreases |frags|
  {
    hide Receive, Join, Frag.Good, Frag.Continues, Frag.Opcode;
    if frags == [] {
      assert Stream(frags) + s == s;
      if Receive(crc, s, acc).0.Some? {
        var f, left := ReceiveSome(crc, s, acc);
        GoodIsNotSpoilt(crc, f, left);
        assert false;
      }
    } else {
      var f, rest := frags[0], frags[1..];
      assert f in frags && f.PartOf(crc, op, false);
      Sized(crc, f);
      ReceiveGood(crc, f, Stream(rest) + s, acc);
      JoinFirst(crc, f, rest, acc);
      assert Stream(frags) + s == f.hdr + f.pdu + (Stream(rest) + s);
      SpoiltIsRefused(crc, rest, op, s, Some(Join(acc, ParseHdr(f.hdr), f.pdu)));
    }
  }

  lemma GoodIsNotSpoilt(crc: Crc, f: Frag, left: seq<byte>)
    requires f.Good(crc)
    ensures var s := f.hdr + f.pdu + left;
            !Spoilt(crc, s) && Decode(s[2..4]) == f.Opcode()
  {
    hide Decode;
    var s := f.hdr + f.pdu + left;
    assert s[..20] == f.hdr[..20] && s[20..22] == f.hdr[20..22] && s[2..4] == f.hdr[2..4];
    assert s[16..20] == f.hdr[16..20] && s[22..24] == f.hdr[22..24];
    assert s[24..24 + |f.pdu|] == f.pdu;
  }

  /** What is sent: full fragments of 1024 bytes with MORE set, then one with what is left and no flag. */
  ghost predicate Sent(crc: Crc, frags: seq<Frag>, opcode: nat, tag: nat, payload: seq<byte>)
  {
    && Complete(crc, frags, opcode) && Payload(frags) == payload
    && (forall i | 0 <= i < |frags| :: Stamped(frags[i], tag, i < |frags| - 1))
  }

  /** Flags, tag and the length of the payload. */
  ghost predicate Stamped(f: Frag, tag: nat, more: bool)
  {
    && |f.hdr| == 24 && Decode(f.hdr[4..8]) == (if more then 1 else 0) && Decode(f.hdr[8..16]) == tag
    && (more ==> |f.pdu| == 1024)
  }

  lemma FragmentSent(crc: Crc, opcode: nat, tag: nat, pdu: seq<byte>, more: bool) returns (f: Frag)
    requires Is16Bit(crc) && opcode < Pow256(2) && tag < Pow256(8) && |pdu| <= MAX_PDU && (more ==> |pdu| == MAX_PDU)
    ensures Fragment(crc, opcode, tag, pdu, more) == f.hdr + f.pdu && f.pdu == pdu
    ensures f.PartOf(crc, opcode, !more) && Stamped(f, tag, more)
  {
    hide Front, HdrBytes, Decode, Pow256;
    f := Frag(HdrBytes(FragmentHdr(crc, opcode, tag, pdu, more)), pdu);
    FragmentParsed(crc, opcode, tag, pdu, more, []);
    Cut(f, []);
    FragInBytes(crc, f);
  }

  /** Every command is sent in such fragments. */
  lemma {:induction false} WireInFragments(crc: Crc, opcode: nat, tag: nat, payload: seq<byte>)
    returns (frags: seq<Frag>)
    requires Is16Bit(crc) && opcode < Pow256(2) && tag < Pow256(8)
    ensures Sent(crc, frags, opcode, tag, payload) && Wire(crc, opcode, tag, payload) == Stream(frags)
    decreases |payload|
  {
    hide Fragment, Is16Bit, Pow256, Frag.PartOf, Stamped;
    var n := if |payload| <= MAX_PDU then |payload| else MAX_PDU;
    var f := FragmentSent(crc, opcode, tag, payload[..n], n < |payload|);
    if n == |payload| {
      frags := [f];
      assert payload[..n] == payload;
      assert Payload(frags[1..]) == [] && Stream(frags[1..]) == [];
    } else {
      var rest := WireInFragments(crc, opcode, tag, payload[n..]);
      frags := [f] + rest;
      CompleteMore(crc, f, rest, opcode);
      PayloadFirst(f, rest);
      assert frags[0] == f && frags[1..] == rest;
      assert forall i | 0 < i < |frags| :: frags[i] == rest[i - 1];
    }
  }

  // ---- the loops ----

  /** A connection; the bytes sent and not yet received. */
  class Connection {
    var bytes: seq<byte>

    /** fio_send_data */
    method Send(d: seq<byte>)
      modifies this
      ensures bytes == old(bytes) + d
    {
      bytes := bytes + d;
    }

    /** fio_recv_data: all of the bytes asked for, or an error at the end of the stream. */
    method Recv(n: nat) returns (r: Option<seq<byte>>)
      modifies this
      ensures if n <= |old(bytes)| then r == Some(old(bytes)[..n]) && bytes == old(bytes)[n..]
              else r == None && bytes == []
    {
      if n <= |bytes| {
        r := Some(bytes[..n]);
        bytes := bytes[n..];
      } else {
        r := None;
        bytes := [];
      }
    }
  }

  /** fio_net_send_cmd */
  method SendCmd(crc: Crc, c: Connection, opcode: nat, payload: seq<byte>, tag: nat)
    modifies c
    ensures c.bytes == old(c.bytes) + Wire(crc, opcode, tag, payload)
  {
    hide Front, HdrBytes;
    var left := payload;
    var more := true;
    while more
      invariant more ==> c.bytes + Wire(crc, opcode, tag, left) == old(c.bytes) + Wire(crc, opcode, tag, payload)
      invariant !more ==> c.bytes == old(c.bytes) + Wire(crc, opcode, tag, payload)
      decreases more, |left|
    {
      var n := if |left| > MAX_PDU then MAX_PDU else |left|;
      var pdu := left[..n];
      var h := Hdr(SERVER_VER, opcode, if n < |left| then F_MORE else 0, tag, n, 0, 0);
      h := h.(cmdCrc := crc(Front(h)), pduCrc := if n == 0 then 0 else crc(pdu));
      ghost var was := c.bytes;
      c.Send(HdrBytes(h) + pdu);
      assert HdrBytes(h) + pdu == Fragment(crc, opcode, tag, pdu, n < |left|);
      assert n == |left| ==> pdu == left;
      assert n < |left| ==> c.bytes + Wire(crc, opcode, tag, left[n..]) == was + Wire(crc, opcode, tag, left);
      left := left[n..];
      more := left != [];
    }
  }

  /** fio_net_recv_cmd */
  method RecvCmd(crc: Crc, c: Connection) returns (r: Option<Cmd>)
    modifies c
    ensures (r, c.bytes) == Receive(crc, old(c.bytes), None)
    ensures r.Some? ==> exists frags :: Carries(crc, old(c.bytes), frags, c.bytes) && r.value == Made(frags)
    ensures forall frags, rest | Carries(crc, old(c.bytes), frags, rest) :: r == Some(Made(frags)) && c.bytes == rest
  {
    hide HdrOk, ParseHdr, Carries, Made;
    ReceivedIff(crc, c.bytes);
    var acc: Option<Cmd> := None;
    var more := true;
    while more
      invariant more ==> Receive(crc, c.bytes, acc) == Receive(crc, old(c.bytes), None)
      invariant !more ==> acc.Some? && (Some(Finish(acc.value)), c.bytes) == Receive(crc, old(c.bytes), None)
      decreases more, |c.bytes|
    {
      var hdr := c.Recv(HDR_SIZE);
      if hdr.None? {
        return None;
      }
      var h := ParseHdr(hdr.value);
      if !HdrOk(crc, hdr.value) {
        return None;
      }
      if acc.Some? && acc.value.opcode != h.opcode {
        return None;
      }
      if h.pduLen == 0 {
        acc := if acc.Some? then acc else Some(Join(None, h, []));
        more := false;
      } else {
        var pdu := c.Recv(h.pduLen);
        if pdu.None? {
          return None;
        }
        if crc(pdu.value) != h.pduCrc {
          return None;
        }
        acc := Some(Join(acc, h, pdu.value));
        more := h.flags % 2 == 1;
      }
    }
    r := Some(Finish(acc.value));
  }

  /** A command sent over a connection arrives, and what was sent after it stays to be received. */
  method Exchange(crc: Crc, c: Connection, opcode: nat, payload: seq<byte>, tag: nat,
                  after: seq<byte>) returns (r: Option<Cmd>)
    requires Is16Bit(crc) && opcode < Pow256(2) && tag < Pow256(8) && |payload| < U32 && c.bytes == []
    modifies c
    ensures r == Some(Cmd(opcode, 0, tag, |payload|, payload)) && c.bytes == after
  {
    SendCmd(crc, c, opcode, payload, tag);
    c.Send(after);
    assert c.bytes == Wire(crc, opcode, tag, payload) + after;
    RoundTrip(crc, opcode, tag, payload, after);
    r := RecvCmd(crc, c);
  }
}
