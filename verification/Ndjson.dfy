// The NDJSON line splitter of src/core/machines.rs.
module Ndjson {
  import opened Wrappers
  import opened Bytes

  const LF: byte := 10
  const CR: byte := 13

  ghost predicate FirstLfAt(data: seq<byte>, p: nat) {
    p < |data| && data[p] == LF && forall j :: 0 <= j < p ==> data[j] != LF
  }

  function FindLf(data: seq<byte>): (r: Option<nat>)
    ensures r.Some? ==> FirstLfAt(data, r.value)
    ensures r.None? ==> forall j :: 0 <= j < |data| ==> data[j] != LF
  {
    if data == [] then None
    else if data[0] == LF then Some(0)
    else
      match FindLf(data[1..])
      case Some(p) => Some(p + 1)
      case None => None
  }

  lemma LfFound(data: seq<byte>, p: nat)
    requires FirstLfAt(data, p)
    ensures FindLf(data) == Some(p)
  {
    hide FindLf;
  }

  // One trailing CR goes.
  function Strip(line: seq<byte>): seq<byte> {
    if line != [] && line[|line| - 1] == CR then line[..|line| - 1] else line
  }

  // The lines ended by an LF, and what follows the last one.
  function CompleteLines(data: seq<byte>): seq<seq<byte>>
    decreases |data|
  {
    match FindLf(data)
    case None => []
    case Some(p) => [Strip(data[..p])] + CompleteLines(data[p + 1..])
  }

  function Remainder(data: seq<byte>): seq<byte>
    decreases |data|
  {
    match FindLf(data)
    case None => data
    case Some(p) => Remainder(data[p + 1..])
  }

  // What the receiver of `data` is to see: an unended last line counts unless it is empty.
  function AllLines(data: seq<byte>): seq<seq<byte>> {
    CompleteLines(data) + if Remainder(data) == [] then [] else [Strip(Remainder(data))]
  }

  lemma NextLine(data: seq<byte>, start: nat)
    requires start <= |data|
    ensures match FindLf(data[start..])
      case None => CompleteLines(data[start..]) == [] && Remainder(data[start..]) == data[start..]
      case Some(p) =>
        && start + p < |data|
        && CompleteLines(data[start..]) == [Strip(data[start..start + p])] + CompleteLines(data[start + p + 1..])
        && Remainder(data[start..]) == Remainder(data[start + p + 1..])
  {
    hide FindLf, Strip;
    match FindLf(data[start..])
    case None =>
    case Some(p) =>
      assert data[start..][..p] == data[start..start + p];
      assert data[start..][p + 1..] == data[start + p + 1..];
  }

  // Splitting does not care where the data was cut.
  lemma {:induction false} SplitConcat(xs: seq<byte>, ys: seq<byte>)
    ensures CompleteLines(xs + ys) == CompleteLines(xs) + CompleteLines(Remainder(xs) + ys)
    ensures Remainder(xs + ys) == Remainder(Remainder(xs) + ys)
    decreases |xs|
  {
    hide FindLf, Strip;
    match FindLf(xs)
    case None =>
    case Some(p) =>
      LfFound(xs + ys, p);
      assert (xs + ys)[..p] == xs[..p];
      assert (xs + ys)[p + 1..] == xs[p + 1..] + ys;
      SplitConcat(xs[p + 1..], ys);
  }

  // ---------------------------------------------------------------- the reference

  // Text written line by line, each ended by LF or CRLF.
  datatype Line = Line(text: seq<byte>, crlf: bool)
  {
    function Written(): seq<byte> {
      text + if crlf then ['\r' as int, '\n' as int] else ['\n' as int]
    }

    // A bare-LF line that itself ends in CR would be read as ended by CRLF.
    predicate Readable() {
      '\n' as int !in text && (crlf || text == [] || text[|text| - 1] != '\r' as int)
    }
  }

  function Text(lines: seq<Line>): seq<byte> {
    if lines == [] then [] else lines[0].Written() + Text(lines[1..])
  }

  function Texts(lines: seq<Line>): seq<seq<byte>> {
    if lines == [] then [] else [lines[0].text] + Texts(lines[1..])
  }

  // Reading undoes writing, with or without a last unended line.
  lemma {:induction false} LinesRoundTrip(lines: seq<Line>, tail: seq<byte>)
    requires (forall i :: 0 <= i < |lines| ==> lines[i].Readable()) && '\n' as int !in tail
    ensures AllLines(Text(lines) + tail) == Texts(lines) + if tail == [] then [] else [Strip(tail)]
  {
    hide FindLf, CompleteLines, Remainder, Strip;
    var data := Text(lines) + tail;
    if lines == [] {
      assert data == tail;
      NoLines(tail);
    } else {
      var rest := Text(lines[1..]) + tail;
      assert data == lines[0].Written() + rest;
      LinesRoundTrip(lines[1..], tail);
      FirstLine(lines[0], rest);
      var last := if Remainder(rest) == [] then [] else [Strip(Remainder(rest))];
      assert AllLines(data) == [lines[0].text] + CompleteLines(rest) + last == [lines[0].text] + AllLines(rest);
    }
  }

  lemma NoLines(data: seq<byte>)
    requires LF !in data
    ensures CompleteLines(data) == [] && Remainder(data) == data
  {}

  lemma FirstLine(line: Line, rest: seq<byte>)
    requires line.Readable()
    ensures CompleteLines(line.Written() + rest) == [line.text] + CompleteLines(rest)
    ensures Remainder(line.Written() + rest) == Remainder(rest)
  {
    hide FindLf;
    var head := line.Written();
    var p, data := |head| - 1, head + rest;
    assert head == head[..p] + [LF];
    assert head[..p] == line.text + if line.crlf then [CR] else [];
    LfFound(data, p);
    assert data[p + 1..] == rest && data[..p] == head[..p];
    assert Strip(data[..p]) == line.text;
  }

  // ---------------------------------------------------------------- the splitter

  class NdjsonLineSplitter {
    var carry: seq<byte>
    var lines: seq<seq<byte>>  // handed to on_line so far
    ghost var fed: seq<byte>

    ghost predicate Valid()
      reads this
    {
      lines == CompleteLines(fed) && carry == Remainder(fed)
    }

    constructor ()
      ensures Valid() && fed == []
    {
      carry, lines, fed := [], [], [];
    }

    method Feed(chunk: seq<byte>)
      requires Valid()
      modifies this
      ensures Valid() && fed == old(fed) + chunk
    {
      hide FindLf, Strip, CompleteLines, Remainder;
      var data := carry + chunk;
      SplitConcat(fed, chunk);
      fed := fed + chunk;
      var start := 0;
      assert data[0..] == data;
      while FindLf(data[start..]).Some?
        invariant 0 <= start <= |data|
        invariant lines + CompleteLines(data[start..]) == CompleteLines(fed)
        invariant Remainder(data[start..]) == Remainder(fed)
        invariant fed == old(fed) + chunk
        decreases |data| - start
      {
        NextLine(data, start);
        var pos := FindLf(data[start..]).value;
        lines := lines + [Strip(data[start..start + pos])];
        start := start + pos + 1;
      }
      NextLine(data, start);
      carry := data[start..];
      assert lines + [] == lines;
    }

    method Finish()
      requires Valid()
      modifies this
      ensures lines == AllLines(fed) && fed == old(fed) && carry == []
    {
      if carry != [] {
        lines := lines + [Strip(carry)];
        carry := [];
      }
    }
  }
}
