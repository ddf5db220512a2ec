/**
 * The field parser of src/acars.c:252-298: the fixed offsets at which the message
 * record of src/acars.c:46-57 is read out of a validated, parity-stripped block.
 */
module Messages {
  import opened Wrappers

  /**
   * The message record.  `no` and `be` are only written for blocks longer than 13
   * bytes (src/acars.c:283); `None` stands for the field the source leaves unset.
   * The NUL terminators of the C strings are not part of the sequences.
   */
  datatype Message = Message(
    mode: bv8,
    addr: seq<bv8>,
    ack: bv8,
    msgLabel: seq<bv8>,
    bid: bv8,
    bs: bv8,
    no: Option<seq<bv8>>,
    be: Option<bv8>,
    fid: seq<bv8>,
    text: seq<bv8>,
    err: nat,
    lvl: int)

  /** Text bytes before the first field that is read only from longer blocks. */
  const HeaderSize: nat := 13

  /** Maximum length of the message number and of the flight id. */
  const NoSize: nat := 4
  const FidSize: nat := 6

  /** Size of the record's text buffer, NUL included (src/acars.c:55). */
  const TextBuffer: nat := 220

  /** A second label character of 0x7f is shown as 'd' (src/acars.c:272-273). */
  function LabelChar(b: bv8): (r: bv8)
    ensures r != 0x7f
    ensures b == 0x7f ==> r == 'd' as bv8
    ensures b != 0x7f ==> r == b
  {
    if b == 0x7f then 'd' as bv8 else b
  }

  /** What `strcpy` copies: the bytes before the first NUL, or all of them. */
  function UntilNul(s: seq<bv8>): (r: seq<bv8>)
    ensures |r| <= |s| && r == s[..|r|]
    ensures forall i :: 0 <= i < |r| ==> r[i] != 0
    ensures |r| < |s| ==> s[|r|] == 0
  {
    if s == [] || s[0] == 0 then [] else [s[0]] + UntilNul(s[1..])
  }

  /** At most the first n elements of s: what a copy loop bounded by n and by the end of s takes. */
  function Take(s: seq<bv8>, n: nat): (r: seq<bv8>)
    ensures |r| <= n && |r| <= |s| && r == s[..|r|]
    ensures |r| < n ==> r == s
  {
    if |s| <= n then s else s[..n]
  }

  /**
   * The record filled from a block's text (src/acars.c:252-298), with the error
   * indicator and level the worker supplies.  The bytes between the header and the
   * last one are split into the message number, the flight id and the text.
   */
  function Parse(txt: seq<bv8>, err: nat, lvl: int): (m: Message)
    requires |txt| >= HeaderSize
  {
    var lab := [txt[9], LabelChar(txt[10])];
    if |txt| == HeaderSize then
      Message(txt[0], txt[1..8], txt[8], lab, txt[11], txt[12], None, None, [], [], err, lvl)
    else
      var body := txt[HeaderSize..|txt| - 1];
      var no := Take(body, NoSize);
      var fid := Take(body[|no|..], FidSize);
      var text := UntilNul(body[|no| + |fid|..]);
      Message(txt[0], txt[1..8], txt[8], lab, txt[11], txt[12],
              Some(no), Some(txt[|txt| - 1]), fid, text, err, lvl)
  }

  /**
   * A record some block parses to: fixed-size address and label, a message number
   * exactly when a block end byte, short fields only at the end, and no NUL in the text.
   */
  predicate WellFormed(m: Message)
  {
    && |m.addr| == 7
    && |m.msgLabel| == 2 && m.msgLabel[1] != 0x7f
    && (m.no.Some? <==> m.be.Some?)
    && (m.no.None? ==> m.fid == [] && m.text == [])
    && (m.no.Some? ==> |m.no.value| <= NoSize)
    && |m.fid| <= FidSize
    && (m.no.Some? && |m.no.value| < NoSize ==> m.fid == [])
    && (|m.fid| < FidSize ==> m.text == [])
    && (forall i :: 0 <= i < |m.text| ==> m.text[i] != 0)
  }

  /** The 13 header bytes of a record: mode, address, acknowledgement, label, block id, start byte. */
  function Header(m: Message): seq<bv8>
  {
    [m.mode] + m.addr + [m.ack] + m.msgLabel + [m.bid, m.bs]
  }

  /** The bytes of a record between its header and its block end byte. */
  function Body(m: Message): seq<bv8>
    requires m.no.Some?
  {
    m.no.value + m.fid + m.text
  }

  /** The block text that carries a record: its fields back to back, then the block end byte. */
  function Encode(m: Message): (txt: seq<bv8>)
    requires WellFormed(m)
  {
    if m.no.Some? then Header(m) + Body(m) + [m.be.value] else Header(m)
  }

  /** Every parsed record is well formed, and its fields fit the record's buffers. */
  lemma ParseWellFormed(txt: seq<bv8>, err: nat, lvl: int)
    requires |txt| >= HeaderSize
    ensures var m := Parse(txt, err, lvl);
      && WellFormed(m)
      && (m.no.Some? <==> |txt| > HeaderSize)
      && (m.text != [] ==> |m.text| <= |txt| - 1 - HeaderSize - NoSize - FidSize)
  {
  }

  /** The fixed fields of a parse come from the first 13 bytes alone. */
  lemma HeaderParsed(txt: seq<bv8>, m: Message)
    requires |txt| >= HeaderSize && |m.addr| == 7 && |m.msgLabel| == 2 && txt[..HeaderSize] == Header(m)
    ensures txt[0] == m.mode && txt[1..8] == m.addr && txt[8] == m.ack
    ensures txt[9] == m.msgLabel[0] && txt[10] == m.msgLabel[1] && txt[11] == m.bid && txt[12] == m.bs
  {
    var h := Header(m);
    assert txt[1..8] == h[1..8];
  }

  /** Taking n elements of a + b gives a back when a has n elements, or fewer and b is empty. */
  lemma TakeFront(a: seq<bv8>, b: seq<bv8>, n: nat)
    requires |a| == n || (|a| < n && b == [])
    ensures Take(a + b, n) == a && (a + b)[|a|..] == b
  {
  }

  /** The body fields of a well-formed record are split back out of its body. */
  lemma BodyParsed(m: Message)
    requires WellFormed(m) && m.no.Some?
    ensures var body := Body(m);
      var no := Take(body, NoSize);
      var fid := Take(body[|no|..], FidSize);
      no == m.no.value && fid == m.fid && UntilNul(body[|no| + |fid|..]) == m.text
  {
    var no, fid, text := m.no.value, m.fid, m.text;
    TakeFront(no, fid + text, NoSize);
    assert no + (fid + text) == Body(m);
    TakeFront(fid, text, FidSize);
    assert (fid + text)[|fid|..] == Body(m)[|no| + |fid|..];
    NoNulCopied(text);
  }

  /** A text whose header, body and last byte are those of a well-formed record parses to it. */
  lemma PartsParsed(txt: seq<bv8>, m: Message)
    requires WellFormed(m) && |txt| >= HeaderSize && txt[..HeaderSize] == Header(m)
    requires m.no.None? ==> |txt| == HeaderSize
    requires m.no.Some? ==> |txt| > HeaderSize && txt[HeaderSize..|txt| - 1] == Body(m) && txt[|txt| - 1] == m.be.value
    ensures Parse(txt, m.err, m.lvl) == m
  {
    HeaderParsed(txt, m);
    var lab := [txt[9], LabelChar(txt[10])];
    assert lab == m.msgLabel;
    if m.no.Some? {
      BodyParsed(m);
    }
  }

  /** Parsing the encoding of a well-formed record gives the record back. */
  lemma ParseEncode(m: Message)
    requires WellFormed(m)
    ensures |Encode(m)| >= HeaderSize
    ensures Parse(Encode(m), m.err, m.lvl) == m
  {
    var txt := Encode(m);
    assert txt[..HeaderSize] == Header(m);
    if m.no.Some? {
      assert txt[HeaderSize..|txt| - 1] == Body(m);
    }
    PartsParsed(txt, m);
  }

  /** The first 13 bytes of a text, cut at the header's field boundaries. */
  lemma HeaderBytes(txt: seq<bv8>)
    requires |txt| >= HeaderSize
    ensures [txt[0]] + txt[1..8] + [txt[8]] + [txt[9], txt[10]] + [txt[11], txt[12]] == txt[..HeaderSize]
  {
  }

  /** A sequence without NUL is copied whole. */
  lemma {:induction false} NoNulCopied(s: seq<bv8>)
    requires forall i :: 0 <= i < |s| ==> s[i] != 0
    ensures UntilNul(s) == s
  {
    if s != [] {
      NoNulCopied(s[1..]);
    }
  }

  /**
   * Encoding a parsed record gives the block text back, when the label's second
   * byte is not 0x7f and no NUL cuts the text short.
   */
  lemma EncodeParse(txt: seq<bv8>, err: nat, lvl: int)
    requires |txt| >= HeaderSize && txt[10] != 0x7f
    requires forall i :: HeaderSize + NoSize + FidSize <= i < |txt| - 1 ==> txt[i] != 0
    ensures var m := Parse(txt, err, lvl);
      WellFormed(m) && Encode(m) == txt
  {
    var m := Parse(txt, err, lvl);
    ParseWellFormed(txt, err, lvl);
    assert Header(m) == txt[..HeaderSize] by {
      assert m.msgLabel == [txt[9], txt[10]];
      HeaderBytes(txt);
    }
    if |txt| > HeaderSize {
      assert Body(m) == txt[HeaderSize..|txt| - 1] by {
        BodyOfParse(txt, err, lvl);
      }
      assert txt == txt[..HeaderSize] + txt[HeaderSize..|txt| - 1] + [txt[|txt| - 1]];
    }
  }

  /** The body fields of a parse, put back together, are the bytes between header and last byte. */
  lemma BodyOfParse(txt: seq<bv8>, err: nat, lvl: int)
    requires |txt| > HeaderSize
    requires forall i :: HeaderSize + NoSize + FidSize <= i < |txt| - 1 ==> txt[i] != 0
    ensures Parse(txt, err, lvl).no.Some?
    ensures Body(Parse(txt, err, lvl)) == txt[HeaderSize..|txt| - 1]
  {
    var body := txt[HeaderSize..|txt| - 1];
    var no := Take(body, NoSize);
    var fid := Take(body[|no|..], FidSize);
    var rest := body[|no| + |fid|..];
    assert UntilNul(rest) == rest by {
      forall i | 0 <= i < |rest|
        ensures rest[i] != 0
      {
        assert rest[i] == txt[HeaderSize + |no| + |fid| + i];
      }
      NoNulCopied(rest);
    }
    assert body == no + fid + rest;
  }

  /**
   * A block of at most 241 bytes, the most the receiver collects, leaves a text that
   * fits the record's 220-byte buffer with its NUL.
   */
  lemma TextFits(txt: seq<bv8>, err: nat, lvl: int)
    requires HeaderSize <= |txt| <= 241
    ensures |Parse(txt, err, lvl).text| + 1 <= TextBuffer
  {
    ParseWellFormed(txt, err, lvl);
  }

  /** The fixed fields of m are those read from the first 13 bytes of txt. */
  predicate HeaderOf(txt: seq<bv8>, m: Message)
    requires |txt| >= HeaderSize
  {
    && m.mode == txt[0] && m.addr == txt[1..8] && m.ack == txt[8]
    && m.msgLabel == [txt[9], LabelChar(txt[10])] && m.bid == txt[11] && m.bs == txt[12]
  }

  /**
   * A record read field by field from a block of more than 13 bytes is its parse:
   * body is the text between header and last byte, tail what follows the two short fields.
   */
  lemma ParsedLong(txt: seq<bv8>, m: Message, body: seq<bv8>, tail: seq<bv8>)
    requires |txt| > HeaderSize && HeaderOf(txt, m) && body == txt[HeaderSize..|txt| - 1]
    requires m.no.Some? && m.no.value == Take(body, NoSize)
    requires m.fid == Take(body[|m.no.value|..], FidSize)
    requires tail == body[|m.no.value| + |m.fid|..] && m.text == UntilNul(tail)
    requires m.be == Some(txt[|txt| - 1])
    ensures Parse(txt, m.err, m.lvl) == m
  {
  }

  /** A record read from a block of exactly 13 bytes, its other fields unset and empty, is its parse. */
  lemma ParsedShort(txt: seq<bv8>, m: Message)
    requires |txt| == HeaderSize && HeaderOf(txt, m)
    requires m.no == None && m.be == None && m.fid == [] && m.text == []
    ensures Parse(txt, m.err, m.lvl) == m
  {
  }
}
