/**
  `telemetry_to_sentence`: the UKHAS telemetry sentence uploaded to Habitat,
  `$$<callsign>,<frame>,<time>,<lat>,<lon>,<alt>,<vel_h>,<temp>,<humidity>[,<comment>]*<CRC>\n`,
  where the CRC covers everything between the leading `$$` and the `*`.
  The numeric fields arrive already rendered (the `%d`, `%.5f` and `%.1f`
  conversions are not modelled) and the time is already `HH:MM:SS`.
*/
module UkhasSentence {
  import opened Wrappers
  import opened Crc16

  /** The rendered per-frame fields, in sentence order after the callsign. */
  datatype SondeFields = SondeFields(
    frame: string, time: string, lat: string, lon: string, alt: string,
    velH: string, temp: string, humidity: string)

  /** The default `payload_callsign`. */
  const DefaultCallsign: string := "RADIOSONDE"

  const FieldSep: char := ','
  const CommentSubst: char := '_'

  /** A Python 2 `str`: every character is one byte. */
  predicate IsByteString(s: string)
  {
    forall i :: 0 <= i < |s| ==> s[i] as int < 256
  }

  function ToBytes(s: string): (b: seq<Byte>)
    requires IsByteString(s)
    ensures |b| == |s|
  {
    seq(|s|, i requires 0 <= i < |s| => (s[i] as int) as Byte)
  }

  /** `sep.join(parts)`. */
  function Join(parts: seq<string>, sep: char): string
  {
    if |parts| == 0 then ""
    else if |parts| == 1 then parts[0]
    else parts[0] + [sep] + Join(parts[1..], sep)
  }

  /** `str.split(sep)`: the pieces between occurrences of `sep`; at least one. */
  function Split(s: string, sep: char): (parts: seq<string>)
    ensures |parts| >= 1
  {
    if |s| == 0 then [""]
    else
      var rest := Split(s[1..], sep);
      if s[0] == sep then [""] + rest else [[s[0]] + rest[0]] + rest[1..]
  }

  /** `s.replace(from, to)` for single characters. */
  function ReplaceChar(s: string, from: char, to: char): (r: string)
    ensures |r| == |s|
    ensures forall i :: 0 <= i < |s| ==> r[i] == if s[i] == from then to else s[i]
  {
    if |s| == 0 then [] else [if s[0] == from then to else s[0]] + ReplaceChar(s[1..], from, to)
  }

  function BaseFields(callsign: string, d: SondeFields): (fs: seq<string>)
    ensures |fs| == 9
  {
    [callsign, d.frame, d.time, d.lat, d.lon, d.alt, d.velH, d.temp, d.humidity]
  }

  /** The comment as it appears in the sentence: commas become underscores. */
  function CommentField(comment: string): string
  {
    ReplaceChar(comment, FieldSep, CommentSubst)
  }

  /** Everything between `$$` and `*`. */
  function Body(callsign: string, d: SondeFields, comment: Option<string>): string
  {
    Join(BaseFields(callsign, d), FieldSep)
      + match comment
        case None => ""
        case Some(c) => [FieldSep] + CommentField(c)
  }

  predicate InputsAreBytes(callsign: string, d: SondeFields, comment: Option<string>)
  {
    (forall i :: 0 <= i < 9 ==> IsByteString(BaseFields(callsign, d)[i]))
    && (comment.Some? ==> IsByteString(comment.value))
  }

  /**
    `telemetry_to_sentence`: build `$$` and the base fields, append the
    comment if one is given, then the checksum of `sentence[2:]`.
  */
  function TelemetryToSentence(d: SondeFields, callsign: string, comment: Option<string>): (out: string)
    requires InputsAreBytes(callsign, d, comment)
    ensures IsByteString(Body(callsign, d, comment))
    ensures out == "$$" + Body(callsign, d, comment) + "*"
      + CrcHex(ToBytes(Body(callsign, d, comment))) + "\n"
  {
    var sentence := "$$" + Join(BaseFields(callsign, d), FieldSep);
    var sentence := if comment.Some? then sentence + [FieldSep] + CommentField(comment.value) else sentence;
    BodyIsBytes(callsign, d, comment);
    assert sentence == "$$" + Body(callsign, d, comment);
    DropMarker(Body(callsign, d, comment));
    var checksum := CrcHex(ToBytes(sentence[2..]));
    sentence + "*" + checksum + "\n"
  }

  lemma DropMarker(body: string)
    ensures ("$$" + body)[2..] == body
  {
  }

  lemma {:induction false} JoinIsBytes(parts: seq<string>, sep: char)
    requires sep as int < 256
    requires forall i :: 0 <= i < |parts| ==> IsByteString(parts[i])
    ensures IsByteString(Join(parts, sep))
  {
    if |parts| > 1 {
      JoinIsBytes(parts[1..], sep);
      var j := Join(parts, sep);
      assert j == parts[0] + [sep] + Join(parts[1..], sep);
      forall i | 0 <= i < |j| ensures j[i] as int < 256 {
        if i < |parts[0]| {
          assert j[i] == parts[0][i];
        } else if i > |parts[0]| {
          assert j[i] == Join(parts[1..], sep)[i - |parts[0]| - 1];
        }
      }
    }
  }

  lemma BodyIsBytes(callsign: string, d: SondeFields, comment: Option<string>)
    requires InputsAreBytes(callsign, d, comment)
    ensures IsByteString(Body(callsign, d, comment))
  {
    JoinIsBytes(BaseFields(callsign, d), FieldSep);
    var j := Join(BaseFields(callsign, d), FieldSep);
    if comment.Some? {
      var c := CommentField(comment.value);
      var b := j + [FieldSep] + c;
      assert Body(callsign, d, comment) == b;
      forall i | 0 <= i < |b| ensures b[i] as int < 256 {
        if i < |j| {
          assert b[i] == j[i];
        } else if i > |j| {
          assert b[i] == c[i - |j| - 1];
        }
      }
    } else {
      assert Body(callsign, d, comment) == j;
    }
  }

  /** The last position of `c` in `s`. */
  function LastIndexOf(s: string, c: char): (k: Option<nat>)
    ensures k.Some? ==>
      (k.value < |s| && s[k.value] == c && forall j :: k.value < j < |s| ==> s[j] != c)
    ensures k.None? ==> forall j :: 0 <= j < |s| ==> s[j] != c
  {
    if |s| == 0 then None
    else if s[|s| - 1] == c then Some(|s| - 1)
    else LastIndexOf(s[..|s| - 1], c)
  }

  /**
    A listener's check of a received sentence: it must start with `$$` and
    end with a newline; it is split at the last `*`, and the text after it
    must be the checksum of the text between `$$` and `*`. The accepted
    body is returned.
  */
  function CheckSentence(s: string): Option<string>
  {
    if |s| < 3 || s[..2] != "$$" || s[|s| - 1] != '\n' then None
    else match LastIndexOf(s, '*')
      case None => None
      case Some(k) =>
        if k < 2 then None
        else
          var body := s[2..k];
          if IsByteString(body) && s[k + 1..|s| - 1] == CrcHex(ToBytes(body)) then Some(body)
          else None
  }

  /** The body opens with the callsign and a separator. */
  lemma BodyLeads(callsign: string, d: SondeFields, comment: Option<string>)
    ensures |Body(callsign, d, comment)| > |callsign|
    ensures Body(callsign, d, comment)[..|callsign| + 1] == callsign + [FieldSep]
  {
    var fs := BaseFields(callsign, d);
    var rest := Join(fs[1..], FieldSep) + match comment
      case None => ""
      case Some(c) => [FieldSep] + CommentField(c);
    assert Body(callsign, d, comment) == (callsign + [FieldSep]) + rest;
  }

  /** Framing keeps a prefix of the body right after `$$`. */
  lemma FramedPrefix(body: string, h: string, p: string)
    requires |p| <= |body| && body[..|p|] == p
    ensures var out := "$$" + body + "*" + h + "\n";
      |out| > |p| + 2 && out[..|p| + 2] == "$$" + p
  {
    var out := "$$" + body + "*" + h + "\n";
    forall i | 0 <= i < |p| + 2 ensures out[i] == ("$$" + p)[i] {
      if i >= 2 { assert out[i] == body[i - 2]; }
    }
  }

  /** A sentence opens with `$$`, the callsign and a separator. */
  lemma CallsignLeads(d: SondeFields, callsign: string, comment: Option<string>)
    requires InputsAreBytes(callsign, d, comment)
    ensures var out := TelemetryToSentence(d, callsign, comment);
      |out| > |callsign| + 3 && out[..|callsign| + 3] == "$$" + callsign + [FieldSep]
  {
    var body := Body(callsign, d, comment);
    BodyLeads(callsign, d, comment);
    BodyIsBytes(callsign, d, comment);
    FramedPrefix(body, CrcHex(ToBytes(body)), callsign + [FieldSep]);
  }

  /** With the default `payload_callsign`, a sentence opens with `$$RADIOSONDE,`. */
  lemma DefaultCallsignLeads(d: SondeFields, comment: Option<string>)
    requires InputsAreBytes(DefaultCallsign, d, comment)
    ensures TelemetryToSentence(d, DefaultCallsign, comment)[..13] == "$$RADIOSONDE,"
  {
    CallsignLeads(d, DefaultCallsign, comment);
  }

  /** Everything the checker accepts has exactly the encoder's framing around the body it returns. */
  lemma CheckSentenceSound(s: string)
    ensures CheckSentence(s).Some? ==>
      var b := CheckSentence(s).value;
      IsByteString(b) && s == "$$" + b + "*" + CrcHex(ToBytes(b)) + "\n"
  {
  }

  /** Where the pieces of a framed sentence sit; the checksum digits hold no `*`. */
  lemma FramePieces(body: string, crc: string)
    requires |crc| == 4 && forall i :: 0 <= i < |crc| ==> IsHexDigit(crc[i])
    ensures var out := "$$" + body + "*" + crc + "\n"; var k := 2 + |body|;
      |out| == k + 6 && out[..2] == "$$" && out[|out| - 1] == '\n'
      && out[2..k] == body && out[k + 1..|out| - 1] == crc
      && LastIndexOf(out, '*') == Some(k)
  {
    var out := "$$" + body + "*" + crc + "\n";
    var k := 2 + |body|;
    assert out[k] == '*';
    assert out[2..k] == body;
    assert out[k + 1..|out| - 1] == crc;
    forall j | k < j < |out| ensures out[j] != '*' {
      if j < |out| - 1 {
        assert out[j] == crc[j - k - 1];
      }
    }
  }

  /** The checker accepts any body framed the encoder's way. */
  lemma FrameAccepted(body: string)
    requires IsByteString(body)
    ensures CheckSentence("$$" + body + "*" + CrcHex(ToBytes(body)) + "\n") == Some(body)
  {
    FramePieces(body, CrcHex(ToBytes(body)));
  }

  /** Round trip: the checker accepts every sentence the encoder produces, and returns its body. */
  lemma SentenceRoundTrip(d: SondeFields, callsign: string, comment: Option<string>)
    requires InputsAreBytes(callsign, d, comment)
    ensures CheckSentence(TelemetryToSentence(d, callsign, comment)) == Some(Body(callsign, d, comment))
  {
    BodyIsBytes(callsign, d, comment);
    FrameAccepted(Body(callsign, d, comment));
  }

  /** A piece without the separator splits to itself. */
  lemma {:induction false} SplitPlain(a: string, sep: char)
    requires sep !in a
    ensures Split(a, sep) == [a]
  {
    if |a| > 0 {
      assert sep !in a[1..] by {
        forall i | 0 <= i < |a[1..]| ensures a[1..][i] != sep { assert a[1..][i] == a[i + 1]; }
      }
      SplitPlain(a[1..], sep);
      assert [a[0]] + a[1..] == a;
    }
  }

  /** Splitting stops at the first separator. */
  lemma {:induction false} SplitAtSep(a: string, b: string, sep: char)
    requires sep !in a
    ensures Split(a + [sep] + b, sep) == [a] + Split(b, sep)
  {
    var s := a + [sep] + b;
    if |a| == 0 {
      assert s[0] == sep && s[1..] == b;
    } else {
      assert sep !in a[1..] by {
        forall i | 0 <= i < |a[1..]| ensures a[1..][i] != sep { assert a[1..][i] == a[i + 1]; }
      }
      SplitAtSep(a[1..], b, sep);
      assert s[0] == a[0] && s[1..] == a[1..] + [sep] + b;
      assert [a[0]] + a[1..] == a;
    }
  }

  /** Splitting a join of separator-free pieces gives the pieces back. */
  lemma {:induction false} SplitJoin(parts: seq<string>, sep: char)
    requires |parts| >= 1
    requires forall i :: 0 <= i < |parts| ==> sep !in parts[i]
    ensures Split(Join(parts, sep), sep) == parts
  {
    if |parts| == 1 {
      SplitPlain(parts[0], sep);
    } else {
      SplitJoin(parts[1..], sep);
      SplitAtSep(parts[0], Join(parts[1..], sep), sep);
      assert [parts[0]] + parts[1..] == parts;
    }
  }

  lemma {:induction false} JoinSnoc(parts: seq<string>, x: string, sep: char)
    requires |parts| >= 1
    ensures Join(parts + [x], sep) == Join(parts, sep) + [sep] + x
  {
    var px := parts + [x];
    if |parts| == 1 {
      assert px[1..] == [x];
    } else {
      assert px[1..] == parts[1..] + [x];
      JoinSnoc(parts[1..], x, sep);
    }
  }

  /**
    The fields a listener reads back: with no comment, exactly the nine base
    fields; with a comment, those nine and one more, the comment with its
    commas replaced, which itself holds no comma. Base fields must not
    contain commas themselves.
  */
  lemma BodyFields(callsign: string, d: SondeFields, comment: Option<string>)
    requires forall i :: 0 <= i < 9 ==> FieldSep !in BaseFields(callsign, d)[i]
    ensures comment.None? ==> Split(Body(callsign, d, comment), FieldSep) == BaseFields(callsign, d)
    ensures comment.Some? ==>
      Split(Body(callsign, d, comment), FieldSep) == BaseFields(callsign, d) + [CommentField(comment.value)]
      && FieldSep !in CommentField(comment.value)
  {
    var base := BaseFields(callsign, d);
    if comment.Some? {
      var c := CommentField(comment.value);
      assert FieldSep !in c;
      JoinSnoc(base, c, FieldSep);
      assert Body(callsign, d, comment) == Join(base + [c], FieldSep);
      forall i | 0 <= i < |base + [c]| ensures FieldSep !in (base + [c])[i] {
        if i < 9 { assert (base + [c])[i] == base[i]; }
      }
      SplitJoin(base + [c], FieldSep);
    } else {
      assert Body(callsign, d, comment) == Join(base, FieldSep) + "";
      assert Join(base, FieldSep) + "" == Join(base, FieldSep);
      SplitJoin(base, FieldSep);
    }
  }
}
