// Chunked transfer coding (section 7.1 of RFC 9112): the format, the decoding that
// src/core/machines.rs performs on it, and the proof that decoding undoes encoding.
module ChunkedFormat {
  import opened Wrappers
  import opened Bytes
  import opened Ndjson

  const SEMICOLON: byte := 59
  const PLUS: byte := 43
  const CRLF: seq<byte> := [CR, LF]
  const MAX_LINE := 16384

  // ---------------------------------------------------------------- the wire format

  ghost predicate FirstCrlfAt(data: seq<byte>, p: nat) {
    && p + 1 < |data| && data[p] == CR && data[p + 1] == LF
    && forall j :: 0 <= j < p ==> !(data[j] == CR && data[j + 1] == LF)
  }

  function FindCrlf(data: seq<byte>): (r: Option<nat>)
    ensures r.Some? ==> FirstCrlfAt(data, r.value) && r.value + 2 <= |data|
    ensures r.None? ==> forall j :: 0 <= j < |data| - 1 ==> !(data[j] == CR && data[j + 1] == LF)
  {
    if |data| < 2 then None
    else if data[0] == CR && data[1] == LF then Some(0)
    else
      match FindCrlf(data[1..])
      case Some(p) => Some(p + 1)
      case None => None
  }

  lemma CrlfFound(data: seq<byte>, p: nat)
    requires FirstCrlfAt(data, p)
    ensures FindCrlf(data) == Some(p)
  {
    hide FindCrlf;
  }

  // ASCII white space, as `trim` removes it from both ends.
  predicate IsSpace(b: byte) { 9 <= b <= 13 || b == 32 }

  function TrimEnd(s: seq<byte>): seq<byte> {
    if s != [] && IsSpace(s[|s| - 1]) then TrimEnd(s[..|s| - 1]) else s
  }

  function TrimStart(s: seq<byte>): seq<byte> {
    if s != [] && IsSpace(s[0]) then TrimStart(s[1..]) else s
  }

  // What stands before the first ';'.
  function BeforeSemicolon(s: seq<byte>): seq<byte> {
    if s == [] || s[0] == SEMICOLON then [] else [s[0]] + BeforeSemicolon(s[1..])
  }

  function HexDigit(b: byte): Option<nat> {
    if 48 <= b <= 57 then Some(b - 48)
    else if 97 <= b <= 102 then Some(b - 87)
    else if 65 <= b <= 70 then Some(b - 55)
    else None
  }

  predicate IsHex(s: seq<byte>) {
    forall i :: 0 <= i < |s| ==> HexDigit(s[i]).Some?
  }

  function HexValue(s: seq<byte>): nat
    requires IsHex(s)
  {
    if s == [] then 0 else 16 * HexValue(s[..|s| - 1]) + HexDigit(s[|s| - 1]).value
  }

  // ---------------------------------------------------------------- numerals, printed

  // How a number is written: division by 16, most significant digit first.
  function Printed(n: nat): (s: seq<byte>)
    ensures s != []
  {
    if n < 16 then [HexChar(n)] else Printed(n / 16) + [HexChar(n % 16)]
  }

  function Zeros(k: nat): (r: seq<byte>)
    ensures |r| == k
  {
    seq(k, _ => '0' as int)
  }

  // `s` is `n` as it is printed, behind any number of zeros and in letters of either case.
  predicate IsNumeral(s: seq<byte>, n: nat) {
    |Printed(n)| <= |s| && Lowered(s) == Zeros(|s| - |Printed(n)|) + Printed(n)
  }

  lemma DigitIff(b: byte, d: nat)
    ensures HexDigit(b) == Some(d) <==> d < 16 && LowerCase(b) == HexChar(d)
  {}

  lemma NumeralOfOne(s: seq<byte>, n: nat)
    requires |s| == 1
    ensures IsNumeral(s, n) <==> n < 16 && LowerCase(s[0]) == HexChar(n)
  {
    assert Lowered(s) == [LowerCase(s[0])];
    assert Zeros(0) + Printed(n) == Printed(n);
    if n >= 16 {
      assert |Printed(n)| > 1;
    }
  }

  lemma NumeralOfMore(s: seq<byte>, n: nat)
    requires |s| > 1
    ensures IsNumeral(s, n) <==>
      IsNumeral(s[..|s| - 1], n / 16) && LowerCase(s[|s| - 1]) == HexChar(n % 16)
  {
    hide Printed;
    var front, last := s[..|s| - 1], s[|s| - 1];
    assert Lowered(s) == Lowered(front) + [LowerCase(last)];
    PrintedMore(n);
    var head, k := Printed(n / 16), |front| - |Printed(n / 16)|;
    if n < 16 {
      assert Zeros(|s| - 1) + [HexChar(n)] == Zeros(|front| - 1) + head + [HexChar(n % 16)] by {
        assert Zeros(|front| - 1) + ['0' as int as byte] == Zeros(|front|);
      }
    } else if k >= 0 {
      assert Zeros(k) + Printed(n) == Zeros(k) + head + [HexChar(n % 16)];
    }
    if k >= 0 {
      SameFront(Lowered(front), LowerCase(last), Zeros(k) + head, HexChar(n % 16));
    }
  }

  lemma PrintedMore(n: nat)
    ensures n < 16 ==> Printed(n) == [HexChar(n)] && Printed(n / 16) == ['0' as int as byte]
    ensures n >= 16 ==> Printed(n) == Printed(n / 16) + [HexChar(n % 16)]
  {}

  lemma SameFront(a: seq<byte>, x: byte, b: seq<byte>, y: byte)
    requires |a| == |b|
    ensures a + [x] == b + [y] <==> a == b && x == y
  {
    assert (a + [x])[..|a|] == a && (b + [y])[..|b|] == b;
    assert (a + [x])[|a|] == x && (b + [y])[|b|] == y;
  }

  // Reading undoes printing, and accepts nothing that is not printed so.
  lemma {:induction false} NumeralIff(s: seq<byte>, n: nat)
    requires s != []
    ensures IsNumeral(s, n) <==> IsHex(s) && HexValue(s) == n
  {
    hide IsNumeral, HexDigit;
    var front, last := s[..|s| - 1], s[|s| - 1];
    assert IsHex(s) <==> IsHex(front) && HexDigit(last).Some? by {
      assert s == front + [last];
    }
    DigitIff(last, n % 16);
    if HexDigit(last).Some? { DigitIff(last, HexDigit(last).value); }
    if front == [] {
      NumeralOfOne(s, n);
      DigitIff(last, n);
    } else {
      NumeralOfMore(s, n);
      NumeralIff(front, n / 16);
    }
  }

  // usize::from_str_radix(field, 16): one leading '+' is allowed, no digits or a value beyond
  // 64 bits are not.
  function ParseHex(field: seq<byte>): Option<nat> {
    var digits := if |field| > 1 && field[0] == PLUS then field[1..] else field;
    if digits != [] && IsHex(digits) && HexValue(digits) < U64 then Some(HexValue(digits)) else None
  }

  function ParseSize(line: seq<byte>): Option<nat> {
    ParseHex(TrimStart(TrimEnd(BeforeSemicolon(line))))
  }

  // A whole body read off the front of `data`.
  datatype Decoded = Done(payload: seq<byte>, rest: seq<byte>) | Malformed | Truncated

  function Prepend(xs: seq<byte>, d: Decoded): Decoded {
    match d
    case Done(payload, rest) => Done(xs + payload, rest)
    case _ => d
  }

  // The trailer section ends at the first empty line.
  function SkipTrailer(data: seq<byte>): Decoded
    decreases |data|
  {
    match FindCrlf(data)
    case None => Truncated
    case Some(p) => if p == 0 then Done([], data[2..]) else SkipTrailer(data[p + 2..])
  }

  function Decode(data: seq<byte>): Decoded
    decreases |data|
  {
    match FindCrlf(data)
    case None => Truncated
    case Some(p) =>
      match ParseSize(data[..p])
      case None => Malformed
      case Some(size) =>
        var rest := data[p + 2..];
        if size == 0 then SkipTrailer(rest) else AfterSize(rest, size)
  }

  // A chunk's data, its CRLF, and the chunks behind it.
  function AfterSize(data: seq<byte>, size: nat): Decoded
    requires size > 0
    decreases |data|
  {
    if |data| < size + 2 then Truncated
    else if data[size..size + 2] != CRLF then Malformed
    else Prepend(data[..size], Decode(data[size + 2..]))
  }

  // Size lines the streaming decoder takes whatever the reads: short, and valid UTF-8.
  ghost predicate LinesFit(utf8: seq<byte> -> bool, data: seq<byte>)
    decreases |data|
  {
    match FindCrlf(data)
    case None => true
    case Some(p) =>
      && p < MAX_LINE && utf8(data[..p])
      && match ParseSize(data[..p])
         case None => true
         case Some(size) => size > 0 && |data| >= p + 2 + size + 2 ==> LinesFit(utf8, data[p + 2 + size + 2..])
  }

  lemma PrependNothing(d: Decoded)
    ensures Prepend([], d) == d
  {
    if d.Done? {
      assert [] + d.payload == d.payload;
    }
  }

  lemma PrependTwice(xs: seq<byte>, ys: seq<byte>, d: Decoded)
    ensures Prepend(xs, Prepend(ys, d)) == Prepend(xs + ys, d)
  {
    if d.Done? {
      assert xs + (ys + d.payload) == xs + ys + d.payload;
    }
  }

  // One turn of the decoder's loop: what a complete size line makes of the bytes behind it.
  lemma ChunkStep(utf8: seq<byte> -> bool, data: seq<byte>, p: nat, size: nat, body: seq<byte>)
    requires FindCrlf(data) == Some(p) && ParseSize(data[..p]) == Some(size) && body == data[p + 2..]
    ensures size == 0 ==> Decode(data) == SkipTrailer(body)
    ensures size > 0 && |body| < size + 2 ==> Decode(data) == Truncated
    ensures size > 0 && |body| >= size + 2 && body[size..][..2] != CRLF ==> Decode(data) == Malformed
    ensures size > 0 && |body| >= size + 2 && body[size..][..2] == CRLF ==>
      Decode(data) == Prepend(body[..size], Decode(body[size..][2..]))
    ensures size > 0 && |body| >= size + 2 && LinesFit(utf8, data) ==> LinesFit(utf8, body[size..][2..])
  {
    hide FindCrlf, ParseSize, SkipTrailer, Prepend;
    if size > 0 && |body| >= size + 2 {
      assert body[size..][..2] == body[size..size + 2] && body[size..][2..] == body[size + 2..];
      assert data[p + 2 + size + 2..] == body[size + 2..];
    }
  }

  lemma BadSizeLine(utf8: seq<byte> -> bool, data: seq<byte>)
    ensures FindCrlf(data).None? ==> Decode(data) == Truncated
    ensures FindCrlf(data).Some? && ParseSize(data[..FindCrlf(data).value]).None? ==> Decode(data) == Malformed
    ensures FindCrlf(data).Some? && LinesFit(utf8, data) ==>
      FindCrlf(data).value < MAX_LINE && utf8(data[..FindCrlf(data).value])
  {
    hide FindCrlf, ParseSize;
  }

  // ---------------------------------------------------------------- the encoder

  // chunk-size [ chunk-ext ], section 7.1.1: a numeral, blanks, and an extension from a ';' on. The
  // decoders also put up with white space of any kind on both sides and with a plus sign.
  datatype SizeLine = SizeLine(lead: seq<byte>, plus: bool, digits: seq<byte>, blanks: seq<byte>, extension: seq<byte>)
  {
    function Field(): seq<byte> {
      (if plus then ['+' as int as byte] else []) + digits
    }

    function Written(): seq<byte> {
      lead + Field() + blanks + extension
    }

    predicate Denotes(size: nat) {
      && digits != [] && IsNumeral(digits, size) && size < 0x1_0000_0000_0000_0000
      && AllWhite(lead) && AllWhite(blanks)
      && (extension != [] ==> extension[0] == ';' as int)
    }
  }

  // Tab, line feed, vertical tab, form feed, carriage return and space.
  predicate AllWhite(s: seq<byte>) {
    forall i :: 0 <= i < |s| ==> s[i] in [9, 10, 11, 12, 13, 32]
  }

  // Nothing in the line ends it.
  predicate NoCrlf(line: seq<byte>) {
    forall i :: 0 <= i < |line| - 1 ==> !(line[i] == CR && line[i + 1] == LF)
  }

  datatype Chunk = Chunk(line: SizeLine, data: seq<byte>)
  {
    function Written(): seq<byte> {
      line.Written() + CRLF + data + CRLF
    }

    predicate WellFormed() {
      data != [] && line.Denotes(|data|) && NoCrlf(line.Written())
    }
  }

  // Trailer field lines, section 7.1.2.
  function WrittenTrailer(fields: seq<seq<byte>>): seq<byte> {
    if fields == [] then CRLF else fields[0] + CRLF + WrittenTrailer(fields[1..])
  }

  datatype Body = Body(chunks: seq<Chunk>, last: SizeLine, trailer: seq<seq<byte>>)
  {
    function Written(): seq<byte>
      decreases |chunks|
    {
      if chunks == [] then last.Written() + CRLF + WrittenTrailer(trailer)
      else chunks[0].Written() + Tail().Written()
    }

    function Payload(): seq<byte>
      decreases |chunks|
    {
      if chunks == [] then [] else chunks[0].data + Tail().Payload()
    }

    function Tail(): Body
      requires chunks != []
    {
      this.(chunks := chunks[1..])
    }

    predicate WellFormed() {
      && (forall i :: 0 <= i < |chunks| ==> chunks[i].WellFormed())
      && last.Denotes(0) && NoCrlf(last.Written())
      && (forall i :: 0 <= i < |trailer| ==> trailer[i] != [] && NoCrlf(trailer[i]))
    }

    predicate FitsLimits(utf8: seq<byte> -> bool) {
      && (forall i :: 0 <= i < |chunks| ==> |chunks[i].line.Written()| < 16384 && utf8(chunks[i].line.Written()))
      && |last.Written()| < 16384 && utf8(last.Written())
    }
  }

  lemma LineFound(line: seq<byte>, rest: seq<byte>)
    requires NoCrlf(line)
    ensures FindCrlf(line + CRLF + rest) == Some(|line|)
    ensures (line + CRLF + rest)[..|line|] == line && (line + CRLF + rest)[|line| + 2..] == rest
  {
    var data := line + CRLF + rest;
    assert data[..|line|] == line && data[|line|..][..2] == CRLF;
    assert FirstCrlfAt(data, |line|) by {
      forall j | 0 <= j < |line| ensures !(data[j] == CR && data[j + 1] == LF) {
        assert data[j] == line[j] && (j + 1 < |line| ==> data[j + 1] == line[j + 1]);
      }
    }
    CrlfFound(data, |line|);
  }

  lemma {:induction false} SemicolonEnds(field: seq<byte>, extension: seq<byte>)
    requires SEMICOLON !in field && (extension != [] ==> extension[0] == SEMICOLON)
    ensures BeforeSemicolon(field + extension) == field
  {
    if field != [] {
      assert (field + extension)[1..] == field[1..] + extension;
      SemicolonEnds(field[1..], extension);
    }
  }

  lemma {:induction false} BlanksTrimmed(digits: seq<byte>, blanks: seq<byte>)
    requires digits != [] && !IsSpace(digits[|digits| - 1])
    requires forall i :: 0 <= i < |blanks| ==> IsSpace(blanks[i])
    ensures TrimEnd(digits + blanks) == digits
  {
    if blanks == [] {
      assert digits + blanks == digits;
    } else {
      assert (digits + blanks)[..|digits + blanks| - 1] == digits + blanks[..|blanks| - 1];
      BlanksTrimmed(digits, blanks[..|blanks| - 1]);
    }
  }

  lemma {:induction false} LeadTrimmed(lead: seq<byte>, field: seq<byte>)
    requires AllWhite(lead) && field != [] && !IsSpace(field[0])
    ensures TrimStart(lead + field) == field
  {
    if lead == [] {
      assert lead + field == field;
    } else {
      assert (lead + field)[1..] == lead[1..] + field;
      LeadTrimmed(lead[1..], field);
    }
  }

  lemma WhiteIsSpace(s: seq<byte>)
    ensures AllWhite(s) <==> forall i :: 0 <= i < |s| ==> IsSpace(s[i])
  {}

  lemma NumeralBytes(digits: seq<byte>, size: nat)
    requires digits != [] && IsNumeral(digits, size)
    ensures IsHex(digits) && HexValue(digits) == size
    ensures forall i :: 0 <= i < |digits| ==>
      digits[i] != SEMICOLON && digits[i] != PLUS && digits[i] != CR && !IsSpace(digits[i])
  {
    hide IsNumeral, HexValue;
    NumeralIff(digits, size);
    forall i | 0 <= i < |digits| ensures digits[i] != SEMICOLON && digits[i] != PLUS && digits[i] != CR
      ensures !IsSpace(digits[i])
    {
      assert HexDigit(digits[i]).Some?;
    }
  }

  // A size line is read back as the size it denotes, whatever blanks and extension it carries.
  lemma SizeLineRoundTrip(line: SizeLine, size: nat)
    requires line.Denotes(size)
    ensures ParseSize(line.Written()) == Some(size)
  {
    hide BeforeSemicolon, TrimEnd, TrimStart, HexValue, IsNumeral, IsHex;
    NumeralBytes(line.digits, size);
    var field := line.Field();
    var front := line.lead + field;
    assert SEMICOLON !in front + line.blanks;
    SemicolonEnds(front + line.blanks, line.extension);
    WhiteIsSpace(line.blanks);
    assert front[|front| - 1] == line.digits[|line.digits| - 1];
    BlanksTrimmed(front, line.blanks);
    LeadTrimmed(line.lead, field);
    assert line.plus ==> field[1..] == line.digits;
    assert !line.plus ==> field == line.digits;
  }

  lemma {:induction false} SemicolonSplits(line: seq<byte>) returns (extension: seq<byte>)
    ensures line == BeforeSemicolon(line) + extension && (extension != [] ==> extension[0] == SEMICOLON)
  {
    if line == [] || line[0] == SEMICOLON {
      extension := line;
    } else {
      extension := SemicolonSplits(line[1..]);
      assert line == [line[0]] + line[1..];
    }
  }

  lemma {:induction false} EndSplits(s: seq<byte>) returns (blanks: seq<byte>)
    ensures s == TrimEnd(s) + blanks && AllWhite(blanks)
  {
    blanks := [];
    if s != [] && IsSpace(s[|s| - 1]) {
      blanks := EndSplits(s[..|s| - 1]);
      blanks := blanks + [s[|s| - 1]];
      assert s == s[..|s| - 1] + [s[|s| - 1]];
    }
  }

  lemma {:induction false} StartSplits(s: seq<byte>) returns (lead: seq<byte>)
    ensures s == lead + TrimStart(s) && AllWhite(lead)
  {
    lead := [];
    if s != [] && IsSpace(s[0]) {
      lead := StartSplits(s[1..]);
      lead := [s[0]] + lead;
      assert s == [s[0]] + s[1..];
    }
  }

  // And no other line is read as a size.
  lemma SizeLineIsRead(text: seq<byte>, size: nat) returns (line: SizeLine)
    requires ParseSize(text) == Some(size)
    ensures line.Written() == text && line.Denotes(size)
  {
    hide BeforeSemicolon, TrimEnd, TrimStart, HexValue, IsNumeral, IsHex;
    var extension := SemicolonSplits(text);
    var blanks := EndSplits(BeforeSemicolon(text));
    var trimmed := TrimEnd(BeforeSemicolon(text));
    var lead := StartSplits(trimmed);
    var field := TrimStart(trimmed);
    var plus := |field| > 1 && field[0] == PLUS;
    line := SizeLine(lead, plus, if plus then field[1..] else field, blanks, extension);
    NumeralIff(line.digits, size);
    assert line.Field() == field by {
      if plus { assert [field[0]] + field[1..] == field; }
    }
    assert line.Written() == lead + field + blanks + extension;
  }

  lemma SizeLinesExactly(text: seq<byte>, size: nat)
    ensures ParseSize(text) == Some(size) <==> exists line: SizeLine :: line.Written() == text && line.Denotes(size)
  {
    hide ParseSize, SizeLine.Written, SizeLine.Denotes;
    if ParseSize(text) == Some(size) {
      var line := SizeLineIsRead(text, size);
    }
    forall line: SizeLine | line.Written() == text && line.Denotes(size) ensures ParseSize(text) == Some(size) {
      SizeLineRoundTrip(line, size);
    }
  }

  lemma {:induction false} TrailerRoundTrip(fields: seq<seq<byte>>, rest: seq<byte>)
    requires forall i :: 0 <= i < |fields| ==> fields[i] != [] && NoCrlf(fields[i])
    ensures SkipTrailer(WrittenTrailer(fields) + rest) == Done([], rest)
  {
    hide FindCrlf;
    var data := WrittenTrailer(fields) + rest;
    if fields == [] {
      LineFound([], rest);
      assert data == [] + CRLF + rest;
    } else {
      var more := WrittenTrailer(fields[1..]) + rest;
      LineFound(fields[0], more);
      assert data == fields[0] + CRLF + more;
      TrailerRoundTrip(fields[1..], rest);
    }
  }

  // Decoding undoes encoding and stops exactly at the end of the body.
  lemma {:induction false} DecodeUndoesEncode(body: Body, rest: seq<byte>)
    requires body.WellFormed()
    ensures Decode(body.Written() + rest) == Done(body.Payload(), rest)
    decreases |body.chunks|
  {
    hide FindCrlf, ParseSize, Decode, SkipTrailer, LinesFit, IsHex, HexValue;
    var data := body.Written() + rest;
    if body.chunks == [] {
      var more := WrittenTrailer(body.trailer) + rest;
      assert data == body.last.Written() + CRLF + more;
      SizeLineRoundTrip(body.last, 0);
      LineFound(body.last.Written(), more);
      ChunkStep(_ => true, data, |body.last.Written()|, 0, more);
      TrailerRoundTrip(body.trailer, rest);
    } else {
      var chunk, more := body.chunks[0], body.Tail().Written() + rest;
      EncodedChunk(_ => true, chunk, more);
      assert data == chunk.Written() + more;
      DecodeUndoesEncode(body.Tail(), rest);
    }
  }

  lemma LineBehind(data: seq<byte>, p: nat)
    requires FindCrlf(data) == Some(p)
    ensures data == data[..p] + CRLF + data[p + 2..] && NoCrlf(data[..p])
  {
    hide FindCrlf;
    assert FirstCrlfAt(data, p) && data[p..p + 2] == CRLF;
  }

  lemma {:induction false} TrailerIsRead(data: seq<byte>, rest: seq<byte>) returns (fields: seq<seq<byte>>)
    requires SkipTrailer(data) == Done([], rest)
    ensures data == WrittenTrailer(fields) + rest
    ensures forall i :: 0 <= i < |fields| ==> fields[i] != [] && NoCrlf(fields[i])
    decreases |data|
  {
    hide FindCrlf, FirstCrlfAt;
    var p := FindCrlf(data).value;
    LineBehind(data, p);
    if p == 0 {
      fields := [];
    } else {
      fields := TrailerIsRead(data[p + 2..], rest);
      var all := [data[..p]] + fields;
      assert all[1..] == fields;
      assert data == data[..p] + CRLF + (WrittenTrailer(fields) + rest);
      assert WrittenTrailer(all) + rest == data[..p] + CRLF + (WrittenTrailer(fields) + rest);
      fields := all;
    }
  }

  lemma {:induction false} TrailerPayload(data: seq<byte>)
    ensures SkipTrailer(data).Done? ==> SkipTrailer(data).payload == []
    decreases |data|
  {
    hide FindCrlf;
    if FindCrlf(data).Some? && FindCrlf(data).value != 0 {
      TrailerPayload(data[FindCrlf(data).value + 2..]);
    }
  }

  // One chunk in front of a body.
  lemma Chained(line: SizeLine, data: seq<byte>, tail: Body) returns (body: Body)
    requires data != [] && line.Denotes(|data|) && NoCrlf(line.Written()) && tail.WellFormed()
    ensures body.WellFormed() && body.Written() == line.Written() + CRLF + data + CRLF + tail.Written()
    ensures body.Payload() == data + tail.Payload()
  {
    hide SizeLine.Written, SizeLine.Denotes, NoCrlf;
    body := tail.(chunks := [Chunk(line, data)] + tail.chunks);
    assert body.chunks[1..] == tail.chunks && body.Tail() == tail;
    assert tail.last == body.last && tail.trailer == body.trailer;
  }

  // The end of a body.
  lemma Ended(line: SizeLine, fields: seq<seq<byte>>) returns (body: Body)
    requires line.Denotes(0) && NoCrlf(line.Written())
    requires forall i :: 0 <= i < |fields| ==> fields[i] != [] && NoCrlf(fields[i])
    ensures body.WellFormed() && body.Written() == line.Written() + CRLF + WrittenTrailer(fields)
    ensures body.Payload() == []
  {
    hide SizeLine.Written, SizeLine.Denotes, NoCrlf, WrittenTrailer;
    body := Body([], line, fields);
  }

  // The first size line of a body that is read, and what is read of the rest.
  lemma FirstIsRead(data: seq<byte>) returns (line: SizeLine, size: nat, rest: seq<byte>)
    requires Decode(data).Done?
    ensures line.Denotes(size) && NoCrlf(line.Written()) && data == line.Written() + CRLF + rest
    ensures size == 0 ==> Decode(data) == SkipTrailer(rest)
    ensures size > 0 ==> size + 2 <= |rest| && rest == rest[..size] + CRLF + rest[size + 2..]
    ensures size > 0 ==> Decode(data) == Prepend(rest[..size], Decode(rest[size + 2..]))
  {
    hide *;
    BadSizeLine(_ => true, data);
    var p := FindCrlf(data).value;
    LineBehind(data, p);
    size, rest := ParseSize(data[..p]).value, data[p + 2..];
    line := SizeLineIsRead(data[..p], size);
    ChunkStep(_ => true, data, p, size, rest);
    if size > 0 {
      assert rest[size..][..2] == rest[size..size + 2] && rest[size..][2..] == rest[size + 2..];
    }
  }

  lemma Behind(front: seq<byte>, middle: seq<byte>, rest: seq<byte>)
    ensures front + (middle + rest) == (front + middle) + rest
  {}

  // Whatever is read as a body is one.
  lemma {:induction false} BodyIsRead(data: seq<byte>) returns (body: Body)
    requires Decode(data).Done?
    ensures body.WellFormed() && data == body.Written() + Decode(data).rest && body.Payload() == Decode(data).payload
    decreases |data|
  {
    hide *;
    var line, size, rest := FirstIsRead(data);
    var end := Decode(data).rest;
    if size == 0 {
      TrailerPayload(rest);
      var fields := TrailerIsRead(rest, end);
      body := Ended(line, fields);
      Behind(line.Written() + CRLF, WrittenTrailer(fields), end);
    } else {
      PrependDone(rest[..size], Decode(rest[size + 2..]));
      var tail := BodyIsRead(rest[size + 2..]);
      body := Chained(line, rest[..size], tail);
      Behind(rest[..size] + CRLF, tail.Written(), end);
      Behind(line.Written() + CRLF, rest[..size] + CRLF + tail.Written(), end);
      Regrouped(line.Written(), rest[..size], tail.Written());
    }
  }

  lemma Regrouped(line: seq<byte>, data: seq<byte>, more: seq<byte>)
    ensures line + CRLF + (data + CRLF + more) == line + CRLF + data + CRLF + more
  {}

  lemma PrependDone(xs: seq<byte>, d: Decoded)
    ensures Prepend(xs, d).Done? ==> d.Done? && Prepend(xs, d) == Done(xs + d.payload, d.rest)
  {}

  // The decoding, exactly: these bytes are a body and these what follows it.
  lemma DecodeExactly(data: seq<byte>, payload: seq<byte>, rest: seq<byte>)
    ensures Decode(data) == Done(payload, rest) <==>
      exists body: Body :: body.WellFormed() && data == body.Written() + rest && body.Payload() == payload
  {
    hide Decode, Body.WellFormed, Body.Written, Body.Payload;
    if Decode(data) == Done(payload, rest) {
      var body := BodyIsRead(data);
    }
    forall body: Body | body.WellFormed() && data == body.Written() + rest && body.Payload() == payload
      ensures Decode(data) == Done(payload, rest)
    {
      DecodeUndoesEncode(body, rest);
    }
  }

  lemma ChunkBytes(chunk: Chunk, more: seq<byte>)
    ensures var line, size := chunk.line.Written(), |chunk.data|;
      var body := chunk.data + CRLF + more;
      && chunk.Written() + more == line + CRLF + body
      && body[..size] == chunk.data && body[size..][..2] == CRLF && body[size..][2..] == more
      && (line + CRLF + body)[|line| + 2 + size + 2..] == more
  {
    hide SizeLine.Written;
  }

  lemma EncodedChunk(utf8: seq<byte> -> bool, chunk: Chunk, more: seq<byte>)
    requires chunk.WellFormed()
    ensures Decode(chunk.Written() + more) == Prepend(chunk.data, Decode(more))
    ensures |chunk.line.Written()| < MAX_LINE && utf8(chunk.line.Written()) && LinesFit(utf8, more) ==>
      LinesFit(utf8, chunk.Written() + more)
  {
    hide FindCrlf, FirstCrlfAt, ParseSize, Decode, SkipTrailer, Prepend, SizeLine.Denotes, SizeLine.Written;
    hide Chunk.Written;
    var line, size := chunk.line.Written(), |chunk.data|;
    var body := chunk.data + CRLF + more;
    ChunkBytes(chunk, more);
    SizeLineRoundTrip(chunk.line, size);
    LineFound(line, body);
    ChunkStep(utf8, line + CRLF + body, |line|, size, body);
  }

  lemma {:induction false} EncodedLinesFit(utf8: seq<byte> -> bool, body: Body, rest: seq<byte>)
    requires body.WellFormed() && body.FitsLimits(utf8)
    ensures LinesFit(utf8, body.Written() + rest)
    decreases |body.chunks|
  {
    hide FindCrlf, ParseSize, Decode, SkipTrailer, IsHex, HexValue;
    var data := body.Written() + rest;
    if body.chunks == [] {
      var more := WrittenTrailer(body.trailer) + rest;
      assert data == body.last.Written() + CRLF + more;
      SizeLineRoundTrip(body.last, 0);
      LineFound(body.last.Written(), more);
    } else {
      var chunk, more := body.chunks[0], body.Tail().Written() + rest;
      EncodedLinesFit(utf8, body.Tail(), rest);
      EncodedChunk(utf8, chunk, more);
      assert data == chunk.Written() + more;
    }
  }
}
