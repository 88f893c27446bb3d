/** `DNSRequestHandler.parse_dns_query`: the name of the first question of a DNS
    message (RFC 1035, sections 3.1 and 4.1.2), as the resolver reads it.

    The code is not an ideal decoder, and this model keeps its behaviour:
    - the name is everything after the 12-byte header up to the FIRST zero
      byte, found with `find`; with no zero byte `find` gives -1 and the slice
      `[:-1]` quietly drops the last byte;
    - a length byte that runs past the end cuts the last label short, because
      a Python slice clamps instead of raising;
    - the buffer length is never checked, so a buffer of at most 12 bytes reads
      as the empty name;
    - the only failure is a label the text decoder refuses, which gives `None`.

    The parser is stated for any label decoder; the resolver uses UTF-8
    (`Utf8.Decode`), and the last lemmas of this module instantiate it. */
module QueryParser {
  import opened PyBuiltins
  import Utf8

  /** How a label's bytes become text (`bytes.decode`): `None` where it raises. */
  type Decoder = seq<Byte> -> Option<string>

  /** Size of the fixed DNS message header (RFC 1035, section 4.1.1). */
  const HeaderSize: nat := 12

  /** `data[12:]`: the question section, and whatever follows it. */
  function Question(data: seq<Byte>): seq<Byte>
  {
    SliceFrom(data, HeaderSize)
  }

  /** `question[:question.find(b'\x00')]`: the encoded name, without a terminator. */
  function QnameRaw(question: seq<Byte>): (r: seq<Byte>)
    ensures 0 !in r
  {
    SliceTo(question, Find(question, 0))
  }

  /** The labels the parser's loop cuts out of `qname` from index `i` on: at
      each step a length byte, then at most that many of the bytes after it. */
  function LabelsFrom(qname: seq<Byte>, i: nat): seq<seq<Byte>>
    decreases |qname| - i
  {
    if i >= |qname| then []
    else [Slice(qname, i + 1, i + 1 + qname[i])] + LabelsFrom(qname, i + 1 + qname[i])
  }

  /** All the labels of `qname`. */
  function Labels(qname: seq<Byte>): seq<seq<Byte>>
  {
    LabelsFrom(qname, 0)
  }

  /** Decodes every label, or `None` as soon as one of them is refused. */
  function DecodeLabels(raw: seq<seq<Byte>>, decode: Decoder): (r: Option<seq<string>>)
    ensures r.None? <==> exists k :: 0 <= k < |raw| && decode(raw[k]).None?
    ensures r.Some? ==> |r.value| == |raw|
    ensures r.Some? ==> forall k :: 0 <= k < |raw| ==> decode(raw[k]) == Some(r.value[k])
  {
    if raw == [] then Some([])
    else
      var first := decode(raw[0]);
      var rest := DecodeLabels(raw[1..], decode);
      if first.Some? && rest.Some? then Some([first.value] + rest.value) else None
  }

  /** The domain a bare encoded name spells: its labels, decoded one by one
      as the loop meets them, joined with ".". */
  function ParseQname(qname: seq<Byte>, decode: Decoder): Option<string>
  {
    match DecodeFrom(qname, 0, decode)
    case None => None
    case Some(parts) => Some(Join(parts, "."))
  }

  /** What `parse_dns_query(data)` returns: the name after the header, cut at
      the first zero byte, split into labels, each label decoded, and the
      texts joined with "."; `None` exactly when a label is refused. */
  function ParseQuery(data: seq<Byte>, decode: Decoder): (r: Option<string>)
    ensures r == CutThenDecode(QnameRaw(Question(data)), decode)
  {
    ParseQnameByLabels(QnameRaw(Question(data)), decode);
    ParseQname(QnameRaw(Question(data)), decode)
  }

  /** A reference reading of a bare name, independent of the loop: cut all
      the labels first, then decode them, then join the texts with ".". */
  function CutThenDecode(qname: seq<Byte>, decode: Decoder): Option<string>
  {
    match DecodeLabels(Labels(qname), decode)
    case None => None
    case Some(parts) => Some(Join(parts, "."))
  }

  /** The datagrams the handlers drop as falsy (`if not domain`) are exactly
      those whose name fails to decode, has no label, or has one empty label. */
  lemma DomainFalsyIff(data: seq<Byte>, decode: Decoder)
    ensures var parts := DecodeLabels(Labels(QnameRaw(Question(data))), decode);
            !Truthy(ParseQuery(data, decode)) <==> parts.None? || parts.value == [] || parts.value == [""]
  {
    var parts := DecodeLabels(Labels(QnameRaw(Question(data))), decode);
    if parts.Some? {
      JoinEmptyIff(parts.value, ".");
    }
  }

  /** The loop's remaining work from index `i` on: the labels still ahead, decoded. */
  function DecodeFrom(qname: seq<Byte>, i: nat, decode: Decoder): Option<seq<string>>
    decreases |qname| - i
  {
    if i >= |qname| then Some([])
    else
      var part := decode(Slice(qname, i + 1, i + 1 + qname[i]));
      var rest := DecodeFrom(qname, i + 1 + qname[i], decode);
      if part.Some? && rest.Some? then Some([part.value] + rest.value) else None
  }

  /** The parts decoded so far, followed by whatever the rest of the loop yields. */
  function Prepend(parts: seq<string>, rest: Option<seq<string>>): Option<seq<string>>
  {
    if rest.Some? then Some(parts + rest.value) else None
  }

  lemma PrependNothing(parts: Option<seq<string>>)
    ensures Prepend([], parts) == parts
  {
    if parts.Some? {
      assert [] + parts.value == parts.value;
    }
  }

  /** One turn of the parser's loop: the label at `i` is decoded and either
      appended to the parts so far or, when refused, ends the parse with `None`. */
  lemma LoopStep(parts: seq<string>, qname: seq<Byte>, i: nat, decode: Decoder)
    requires i < |qname|
    ensures var part := decode(Slice(qname, i + 1, i + 1 + qname[i]));
            (part.None? ==> DecodeFrom(qname, i, decode) == None) &&
            (part.Some? ==> Prepend(parts, DecodeFrom(qname, i, decode))
                              == Prepend(parts + [part.value], DecodeFrom(qname, i + 1 + qname[i], decode)))
  {
    var rest := DecodeFrom(qname, i + 1 + qname[i], decode);
    if rest.Some? {
      var part := decode(Slice(qname, i + 1, i + 1 + qname[i]));
      if part.Some? {
        assert parts + ([part.value] + rest.value) == parts + [part.value] + rest.value;
      }
    }
  }

  lemma PrependEmpty(parts: seq<string>)
    ensures Prepend(parts, Some([])) == Some(parts)
  {
    assert parts + [] == parts;
  }

  /** The parser as the resolver runs it: an index walks the name, each step
      reading a length byte and slicing out the label after it. */
  method ParseDnsQuery(data: seq<Byte>, decode: Decoder) returns (domain: Option<string>)
    ensures domain == ParseQuery(data, decode)
  {
    var question := SliceFrom(data, HeaderSize);
    var qnameEnd := Find(question, 0);
    var qnameRaw := SliceTo(question, qnameEnd);

    var domainParts: seq<string> := [];
    var i: nat := 0;
    PrependNothing(DecodeFrom(qnameRaw, 0, decode));
    while i < |qnameRaw|
      invariant DecodeFrom(qnameRaw, 0, decode) == Prepend(domainParts, DecodeFrom(qnameRaw, i, decode))
      decreases |qnameRaw| - i
    {
      var length := qnameRaw[i];
      LoopStep(domainParts, qnameRaw, i, decode);
      i := i + 1;
      var part := decode(Slice(qnameRaw, i, i + length));
      if part.None? {
        return None;
      }
      domainParts := domainParts + [part.value];
      i := i + length;
    }
    PrependEmpty(domainParts);
    domain := Some(Join(domainParts, "."));
  }

  /** The loop's decoding, label by label, is decoding the list of labels. */
  lemma {:induction false} DecodeFromIsDecodeLabels(qname: seq<Byte>, i: nat, decode: Decoder)
    ensures DecodeFrom(qname, i, decode) == DecodeLabels(LabelsFrom(qname, i), decode)
    decreases |qname| - i
  {
    if i < |qname| {
      var next := i + 1 + qname[i];
      var ls := LabelsFrom(qname, i);
      DecodeFromIsDecodeLabels(qname, next, decode);
      assert ls[0] == Slice(qname, i + 1, next);
      assert ls[1..] == LabelsFrom(qname, next);
    }
  }

  lemma {:induction false} LabelsFromShift(prefix: seq<Byte>, qname: seq<Byte>, i: nat)
    ensures LabelsFrom(prefix + qname, |prefix| + i) == LabelsFrom(qname, i)
    decreases |qname| - i
  {
    if i < |qname| {
      var q := prefix + qname;
      var n := qname[i];
      assert q[|prefix| + i] == n;
      SliceShift(prefix, qname, i + 1, i + 1 + n);
      LabelsFromShift(prefix, qname, i + 1 + n);
    }
  }

  lemma SliceShift(prefix: seq<Byte>, s: seq<Byte>, lo: nat, hi: nat)
    ensures Slice(prefix + s, |prefix| + lo, |prefix| + hi) == Slice(s, lo, hi)
  {
    var t := prefix + s;
    assert t[|prefix|..] == s;
    if lo <= hi {
      if hi <= |s| {
        assert t[|prefix| + lo..|prefix| + hi] == t[|prefix|..][lo..hi];
      } else if lo <= |s| {
        assert t[|prefix| + lo..] == s[lo..];
      }
    }
  }

  /** Every label the loop cuts is at most 255 bytes long, and there are no
      more labels than bytes: each turn consumes at least the length byte. */
  lemma {:induction false} LabelsBounded(qname: seq<Byte>, i: nat)
    ensures |LabelsFrom(qname, i)| <= if i <= |qname| then |qname| - i else 0
    ensures forall k :: 0 <= k < |LabelsFrom(qname, i)| ==> |LabelsFrom(qname, i)[k]| <= 255
    decreases |qname| - i
  {
    if i < |qname| {
      var next := i + 1 + qname[i];
      LabelsBounded(qname, next);
      SliceClamps(qname, i + 1, next);
      var ls := LabelsFrom(qname, i);
      assert ls[1..] == LabelsFrom(qname, next);
      forall k | 0 <= k < |ls|
        ensures |ls[k]| <= 255
      {
        if k > 0 {
          assert ls[k] == LabelsFrom(qname, next)[k - 1];
        }
      }
    }
  }

  /** A label as a well-formed name carries it (RFC 1035, section 3.1): one to
      255 bytes, none of them zero, so that its length byte is not the terminator. */
  predicate ValidLabel(raw: seq<Byte>)
  {
    1 <= |raw| <= 255 && 0 !in raw
  }

  /** The wire form of a sequence of labels, without the terminating zero:
      each label preceded by its length byte. */
  function EncodeLabels(raws: seq<seq<Byte>>): (r: seq<Byte>)
    requires forall k :: 0 <= k < |raws| ==> ValidLabel(raws[k])
    ensures 0 !in r
  {
    if raws == [] then []
    else
      assert ValidLabel(raws[0]);
      var len: Byte := |raws[0]|;
      var rest := EncodeLabels(raws[1..]);
      assert 0 !in [len] + raws[0] by { assert ValidLabel(raws[0]); }
      [len] + raws[0] + rest
  }

  /** Walking an encoded name gives back its labels, then whatever the bytes
      after it spell. */
  lemma {:induction false} LabelsOfEncoded(raws: seq<seq<Byte>>, tail: seq<Byte>)
    requires forall k :: 0 <= k < |raws| ==> ValidLabel(raws[k])
    ensures Labels(EncodeLabels(raws) + tail) == raws + Labels(tail)
  {
    if raws == [] {
      assert EncodeLabels(raws) + tail == tail;
    } else {
      var r := raws[0];
      var head := [|r| as Byte] + r;
      var others := EncodeLabels(raws[1..]);
      assert EncodeLabels(raws) == head + others;
      ConcatAssoc(head, others, tail);
      FirstLabel(r, others + tail);
      LabelsOfEncoded(raws[1..], tail);
      HeadTail(raws);
      ConcatAssoc([r], raws[1..], Labels(tail));
    }
  }

  /** The first turn of the loop over a label and its length byte. */
  lemma FirstLabel(r: seq<Byte>, rest: seq<Byte>)
    requires |r| < 256
    ensures Labels([|r| as Byte] + r + rest) == [r] + Labels(rest)
  {
    var head := [|r| as Byte] + r;
    var q := head + rest;
    assert q[0] == |r|;
    SliceClamps(q, 1, 1 + |r|);
    assert q[1..1 + |r|] == r;
    LabelsFromShift(head, rest, 0);
  }

  /** A name whose last length byte promises more bytes than remain ends in a
      shortened label instead of an error: the slice clamps. */
  lemma TruncatedLastLabel(raws: seq<seq<Byte>>, n: Byte, rest: seq<Byte>)
    requires forall k :: 0 <= k < |raws| ==> ValidLabel(raws[k])
    requires n > |rest|
    ensures Labels(EncodeLabels(raws) + ([n] + rest)) == raws + [rest]
  {
    LabelsOfEncoded(raws, [n] + rest);
    LabelsOfShortLabel(n, rest);
  }

  /** The whole parse of a message whose last length byte overruns the name:
      the shortened label is decoded like any other, so the result is the
      decoded labels joined with ".", or `None` when one of them is refused. */
  lemma TruncatedNameParsed(header: seq<Byte>, raws: seq<seq<Byte>>, n: Byte, rest: seq<Byte>,
                            tail: seq<Byte>, decode: Decoder)
    requires |header| == HeaderSize
    requires forall k :: 0 <= k < |raws| ==> ValidLabel(raws[k])
    requires n > |rest| && 0 !in rest
    ensures var parsed := ParseQuery(header + EncodeLabels(raws) + [n] + rest + [0] + tail, decode);
            var parts := DecodeLabels(raws + [rest], decode);
            (parsed.None? <==> parts.None?) && (parts.Some? ==> parsed == Some(Join(parts.value, ".")))
  {
    var enc := EncodeLabels(raws);
    var name := enc + ([n] + rest);
    ConcatAssoc(header, enc, [n] + rest);
    ConcatAssoc(header + enc, [n], rest);
    assert header + enc + [n] + rest == header + name;
    NoZeroInTruncated(raws, n, rest);
    NameEndsAtFirstZero(header, name, tail, decode);
    ParseQnameByLabels(name, decode);
    TruncatedLastLabel(raws, n, rest);
  }

  lemma NoZeroInTruncated(raws: seq<seq<Byte>>, n: Byte, rest: seq<Byte>)
    requires forall k :: 0 <= k < |raws| ==> ValidLabel(raws[k])
    requires n > |rest| && 0 !in rest
    ensures 0 !in EncodeLabels(raws) + ([n] + rest)
  {
    var name := EncodeLabels(raws) + ([n] + rest);
    forall k | 0 <= k < |name|
      ensures name[k] != 0
    {
      if k >= |EncodeLabels(raws)| {
        assert name[k] == ([n] + rest)[k - |EncodeLabels(raws)|];
      }
    }
  }

  /** The parse of a bare name is decoding its labels and joining them. */
  lemma ParseQnameByLabels(qname: seq<Byte>, decode: Decoder)
    ensures var parts := DecodeLabels(Labels(qname), decode);
            (ParseQname(qname, decode).None? <==> parts.None?) &&
            (parts.Some? ==> ParseQname(qname, decode) == Some(Join(parts.value, ".")))
  {
    DecodeFromIsDecodeLabels(qname, 0, decode);
  }

  lemma LabelsOfShortLabel(n: Byte, rest: seq<Byte>)
    requires n > |rest|
    ensures Labels([n] + rest) == [rest]
  {
    var t := [n] + rest;
    SliceClamps(t, 1, 1 + n);
    assert t[0] == n && t[1..] == rest;
    assert LabelsFrom(t, 1 + n) == [];
    assert LabelsFrom(t, 0) == [Slice(t, 1, 1 + n)] + [];
  }

  /** The parse fails exactly when the decoder refuses one of the labels. */
  lemma ParseFailsIffLabelRefused(qname: seq<Byte>, decode: Decoder)
    ensures ParseQname(qname, decode).None?
        <==> exists k :: 0 <= k < |Labels(qname)| && decode(Labels(qname)[k]).None?
  {
    DecodeFromIsDecodeLabels(qname, 0, decode);
    var r := DecodeLabels(Labels(qname), decode);
    assert ParseQname(qname, decode).None? <==> r.None?;
  }

  /** When every label decodes, the domain is the decoded labels joined by dots. */
  lemma ParseDecodedLabels(qname: seq<Byte>, decode: Decoder, names: seq<string>)
    requires |names| == |Labels(qname)|
    requires forall k :: 0 <= k < |names| ==> decode(Labels(qname)[k]) == Some(names[k])
    ensures ParseQname(qname, decode) == Some(Join(names, "."))
  {
    DecodeFromIsDecodeLabels(qname, 0, decode);
    var r := DecodeLabels(Labels(qname), decode);
    assert r.Some?;
    assert r.value == names;
  }

  /** A message no longer than the header reads as the empty name: the
      length is never checked. */
  lemma ShortMessageGivesEmptyName(data: seq<Byte>, decode: Decoder)
    requires |data| <= HeaderSize
    ensures ParseQuery(data, decode) == Some("")
  {
    assert Question(data) == [];
  }

  /** The header's twelve bytes play no part in the result. */
  lemma HeaderIgnored(header: seq<Byte>, body: seq<Byte>, decode: Decoder)
    requires |header| == HeaderSize
    ensures ParseQuery(header + body, decode) == ParseQname(QnameRaw(body), decode)
  {
    assert Question(header + body) == body;
  }

  /** The name ends at the first zero byte after the header; whatever follows
      it (QTYPE, QCLASS, other sections) is ignored. */
  lemma NameEndsAtFirstZero(header: seq<Byte>, name: seq<Byte>, tail: seq<Byte>, decode: Decoder)
    requires |header| == HeaderSize
    requires 0 !in name
    ensures ParseQuery(header + name + [0] + tail, decode) == ParseQname(name, decode)
  {
    var body := name + [0] + tail;
    assert header + name + [0] + tail == header + body;
    HeaderIgnored(header, body, decode);
    var z := Find(body, 0);
    assert body[|name|] == 0;
    assert body[..|name|] == name;
    assert z == |name|;
  }

  /** With no zero byte after the header, `find` gives -1 and `[:-1]` drops
      the last byte of the message. */
  lemma UnterminatedDropsLastByte(header: seq<Byte>, body: seq<Byte>, decode: Decoder)
    requires |header| == HeaderSize
    requires 0 !in body && |body| > 0
    ensures ParseQuery(header + body, decode) == ParseQname(body[..|body| - 1], decode)
  {
    HeaderIgnored(header, body, decode);
  }

  /** A well-formed question name parses to its labels' texts joined by dots,
      whatever the header and whatever follows the terminating zero. */
  lemma {:induction false} RoundTrip(header: seq<Byte>, raws: seq<seq<Byte>>, tail: seq<Byte>,
                                     decode: Decoder, names: seq<string>)
    requires |header| == HeaderSize
    requires forall k :: 0 <= k < |raws| ==> ValidLabel(raws[k])
    requires |names| == |raws|
    requires forall k :: 0 <= k < |raws| ==> decode(raws[k]) == Some(names[k])
    ensures ParseQuery(header + EncodeLabels(raws) + [0] + tail, decode) == Some(Join(names, "."))
  {
    var name := EncodeLabels(raws);
    NameEndsAtFirstZero(header, name, tail, decode);
    LabelsOfEncoded(raws, []);
    assert name + [] == name;
    assert Labels([]) == [];
    assert raws + [] == raws;
    ParseDecodedLabels(name, decode, names);
  }

  /** The UTF-8 form of a sequence of label texts. */
  function EncodeNames(names: seq<string>): (r: seq<seq<Byte>>)
    ensures |r| == |names|
    ensures forall k :: 0 <= k < |names| ==> r[k] == Utf8.Encode(names[k])
    ensures (forall k :: 0 <= k < |names| ==> ValidLabelText(names[k]))
            ==> forall k :: 0 <= k < |r| ==> ValidLabel(r[k])
  {
    seq(|names|, k requires 0 <= k < |names| => Utf8.Encode(names[k]))
  }

  /** A label text whose UTF-8 form is a well-formed label. */
  predicate ValidLabelText(name: string)
  {
    ValidLabel(Utf8.Encode(name))
  }

  /** Which texts those are: non-empty, free of U+0000, at most 255 bytes once encoded. */
  lemma ValidLabelTextIff(name: string)
    ensures ValidLabelText(name) <==> name != "" && '\0' !in name && |Utf8.Encode(name)| <= 255
  {
    Utf8.EncodeHasZero(name);
  }

  /** The resolver's parser, with UTF-8 labels: a client's question name
      encoded from label texts comes back as those texts joined by dots. */
  lemma Utf8RoundTrip(header: seq<Byte>, names: seq<string>, tail: seq<Byte>)
    requires |header| == HeaderSize
    requires forall k :: 0 <= k < |names| ==> ValidLabelText(names[k])
    ensures ParseQuery(header + EncodeLabels(EncodeNames(names)) + [0] + tail, Utf8.Decode)
         == Some(Join(names, "."))
  {
    var raws := EncodeNames(names);
    forall k | 0 <= k < |raws|
      ensures ValidLabel(raws[k]) && Utf8.Decode(raws[k]) == Some(names[k])
    {
      Utf8.DecodeEncode(names[k]);
    }
    RoundTrip(header, raws, tail, Utf8.Decode, names);
  }
}
