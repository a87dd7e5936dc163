// The HTTP body readers of src/core/machines.rs, fed by reads of any size: chunked transfer
// coding, Content-Length, and bodies that end with the connection.
module HttpBody {
  import opened Wrappers
  import opened Bytes
  import opened Ndjson
  import opened ChunkedFormat

  datatype Failure = Io | Closed | LineTooLong | BadEncoding | BadSize | BadTerminator | SizeOverflow

  // A connection that hands out its data in fragments of any size, and may fail at any read.
  class Stream {
    const data: seq<byte>
    var pos: nat
    var failed: bool

    ghost predicate Valid()
      reads this
    {
      pos <= |data|
    }

    function Unread(): seq<byte>
      requires Valid()
      reads this
    {
      data[pos..]
    }

    constructor (data: seq<byte>)
      ensures Valid() && this.data == data && Unread() == data && !failed
    {
      this.data, pos, failed := data, 0, false;
    }

    // At most `limit` bytes; none at the end of the data.
    method Read(limit: Limit) returns (ok: bool, chunk: seq<byte>)
      requires Valid()
      modifies this`pos, this`failed
      ensures Valid() && (ok ==> failed == old(failed)) && (!ok ==> failed)
      ensures ok ==> old(Unread()) == chunk + Unread() && (chunk == [] <==> old(Unread()) == [])
      ensures ok ==> |chunk| <= limit
    {
      if * {
        failed := true;
        return false, [];
      }
      ok := true;
      if pos == |data| {
        return true, [];
      }
      var n :| 1 <= n <= limit && pos + n <= |data|;
      chunk := data[pos..pos + n];
      assert data[pos..] == chunk + data[pos + n..];
      pos := pos + n;
    }

    // Appends one read to `pending`; the end of the data is an error.
    method Fill(pending: seq<byte>, limit: Limit) returns (r: Result<seq<byte>, Failure>)
      requires Valid()
      modifies this`pos, this`failed
      ensures Valid() && (failed != old(failed) ==> r == Err(Io)) && (r == Err(Io) ==> failed)
      ensures r.Ok? ==> r.value + Unread() == old(pending + Unread())
      ensures r.Ok? ==> |r.value| > |pending| && |Unread()| < |old(Unread())|
      ensures r.Err? ==> r.error == Io || r.error == Closed
      ensures r == Err(Closed) ==> old(pending + Unread()) == pending
    {
      var ok, chunk := Read(limit);
      if !ok {
        return Err(Io);
      }
      if chunk == [] {
        return Err(Closed);
      }
      r := Ok(pending + chunk);
    }
  }

  type Limit = n: int | 0 < n witness 1
  const STREAM_LIMIT: Limit := 16384
  const READ_LIMIT: Limit := 8192

  // Reads until a whole line is pending; the streaming decoder bounds how far it looks for the
  // end of a chunk-size line.
  method ReadLine(stream: Stream, pending0: seq<byte>, bounded: bool, limit: Limit)
    returns (r: Result<nat, Failure>, pending: seq<byte>)
    requires stream.Valid() && !stream.failed
    modifies stream`pos, stream`failed
    ensures stream.Valid() && (stream.failed <==> r == Err(Io))
    ensures r.Ok? ==> pending + stream.Unread() == old(pending0 + stream.Unread())
    ensures r.Ok? ==> r.value + 2 <= |pending|
    ensures r.Ok? ==> FindCrlf(pending) == Some(r.value) && FindCrlf(old(pending0 + stream.Unread())) == Some(r.value)
    ensures r.Err? ==> r.error == Io || r.error == Closed || (bounded && r.error == LineTooLong)
    ensures r == Err(Closed) ==> FindCrlf(old(pending0 + stream.Unread())).None?
    ensures r == Err(LineTooLong) ==> NoShortLine(old(pending0 + stream.Unread()))
  {
    hide *;
    pending := pending0;
    ghost var all := pending0 + stream.Unread();
    while FindCrlf(pending).None?
      invariant stream.Valid() && !stream.failed && pending + stream.Unread() == all
      decreases |stream.Unread()|
    {
      if bounded && |pending| > MAX_LINE {
        LongLine(pending, stream.Unread());
        return Err(LineTooLong), pending;
      }
      var filled := stream.Fill(pending, limit);
      if filled.Err? {
        return Err(filled.error), pending;
      }
      pending := filled.value;
    }
    CrlfInPrefix(pending, stream.Unread());
    r := Ok(FindCrlf(pending).value);
  }

  lemma CrlfInPrefix(xs: seq<byte>, ys: seq<byte>)
    ensures FindCrlf(xs).Some? ==> FindCrlf(xs + ys) == FindCrlf(xs)
  {
    hide FindCrlf;
    if FindCrlf(xs).Some? {
      CrlfFound(xs + ys, FindCrlf(xs).value);
    }
  }

  ghost predicate NoShortLine(data: seq<byte>) {
    match FindCrlf(data)
    case None => true
    case Some(p) => p >= MAX_LINE
  }

  lemma LongLine(pending: seq<byte>, unread: seq<byte>)
    requires FindCrlf(pending).None? && |pending| > MAX_LINE
    ensures NoShortLine(pending + unread)
  {
    hide FindCrlf;
    var data := pending + unread;
    assert data[..|pending|] == pending;
  }

  // ---------------------------------------------------------------- the streaming decoder

  // `done` bytes of `all` are in the sink, and the rest is still to come.
  ghost predicate Delivered(all: seq<byte>, before: seq<byte>, fed: seq<byte>, unseen: seq<byte>, done: nat) {
    done <= |all| && fed == before + all[..done] && unseen == all[done..]
  }

  lemma NothingDelivered(all: seq<byte>, before: seq<byte>)
    ensures Delivered(all, before, before, all, 0)
  {}

  lemma DeliverMore(all: seq<byte>, before: seq<byte>, fed: seq<byte>, pending: seq<byte>, unread: seq<byte>,
      done: nat, take: nat)
    requires Delivered(all, before, fed, pending + unread, done) && take <= |pending|
    ensures Delivered(all, before, fed + pending[..take], pending[take..] + unread, done + take)
  {
    assert |pending + unread| == |all| - done;
    assert pending[..take] == (pending + unread)[..take];
    assert pending[take..] + unread == (pending + unread)[take..];
  }

  lemma DeliveredMeans(all: seq<byte>, before: seq<byte>, fed: seq<byte>, unseen: seq<byte>, done: nat, size: nat)
    requires Delivered(all, before, fed, unseen, done) && done <= size
    ensures size <= |all| ==> fed <= before + all[..size]
    ensures |unseen| == |all| - done
    ensures done == size ==> size <= |all| && unseen == all[size..] && fed == before + all[..size]
  {
    if size <= |all| {
      assert all[..done] <= all[..size];
    }
  }

  // Moves `size` payload bytes to the sink as they arrive.
  method DeliverChunk(stream: Stream, pending0: seq<byte>, size: nat, sink: NdjsonLineSplitter)
    returns (r: Result<(), Failure>, pending: seq<byte>)
    requires stream.Valid() && !stream.failed && sink.Valid()
    modifies stream`pos, stream`failed, sink
    ensures stream.Valid() && sink.Valid() && (stream.failed <==> r == Err(Io))
    ensures r.Err? ==> r.error == Io || r.error == Closed
    ensures var all := old(pending0 + stream.Unread());
      && (r.Ok? ==>
           size <= |all| && pending + stream.Unread() == all[size..] && sink.fed == old(sink.fed) + all[..size])
      && (r == Err(Closed) ==> |all| < size)
      && (size <= |all| ==> sink.fed <= old(sink.fed) + all[..size])
  {
    hide *;
    pending := pending0;
    ghost var all := pending0 + stream.Unread();
    var remaining := size;
    NothingDelivered(all, sink.fed);
    while remaining > 0
      invariant stream.Valid() && !stream.failed && sink.Valid() && 0 <= remaining <= size
      invariant Delivered(all, old(sink.fed), sink.fed, pending + stream.Unread(), size - remaining)
      decreases remaining
    {
      ghost var unseen := pending + stream.Unread();
      DeliveredMeans(all, old(sink.fed), sink.fed, unseen, size - remaining, size);
      if pending == [] {
        var filled := stream.Fill(pending, STREAM_LIMIT);
        if filled.Err? {
          return Err(filled.error), pending;
        }
        pending := filled.value;
      }
      var take := if remaining < |pending| then remaining else |pending|;
      DeliverMore(all, old(sink.fed), sink.fed, pending, stream.Unread(), size - remaining, take);
      sink.Feed(pending[..take]);
      pending := pending[take..];
      remaining := remaining - take;
    }
    DeliveredMeans(all, old(sink.fed), sink.fed, pending + stream.Unread(), size, size);
    r := Ok(());
  }

  // The CRLF behind a chunk's data.
  method ExpectCrlf(stream: Stream, pending0: seq<byte>) returns (r: Result<(), Failure>, pending: seq<byte>)
    requires stream.Valid() && !stream.failed
    modifies stream`pos, stream`failed
    ensures stream.Valid() && (stream.failed <==> r == Err(Io))
    ensures r.Err? ==> r.error == Io || r.error == Closed || r.error == BadTerminator
    ensures var all := old(pending0 + stream.Unread());
      && (r.Ok? ==> |all| >= 2 && all[..2] == CRLF && pending + stream.Unread() == all[2..])
      && (r == Err(Closed) ==> |all| < 2)
      && (r == Err(BadTerminator) ==> |all| >= 2 && all[..2] != CRLF)
  {
    hide *;
    pending := pending0;
    ghost var all := pending0 + stream.Unread();
    while |pending| < 2
      invariant stream.Valid() && !stream.failed && pending + stream.Unread() == all
      decreases 2 - |pending|
    {
      var filled := stream.Fill(pending, STREAM_LIMIT);
      if filled.Err? {
        return Err(filled.error), pending;
      }
      pending := filled.value;
    }
    assert all[..2] == pending[..2] && all[2..] == pending[2..] + stream.Unread();
    if pending[..2] != CRLF {
      return Err(BadTerminator), pending;
    }
    pending := pending[2..];
    r := Ok(());
  }

  lemma TrailerLine(data: seq<byte>)
    ensures match FindCrlf(data)
      case None => SkipTrailer(data) == Truncated
      case Some(p) => SkipTrailer(data) == if p == 0 then Done([], data[2..]) else SkipTrailer(data[p + 2..])
  {
    hide FindCrlf, FirstCrlfAt;
  }

  // The trailer section, up to its empty line.
  method ReadTrailer(stream: Stream, pending0: seq<byte>, limit: Limit)
    returns (r: Result<(), Failure>, ghost rest: seq<byte>)
    requires stream.Valid() && !stream.failed
    modifies stream`pos, stream`failed
    ensures stream.Valid() && (stream.failed <==> r == Err(Io))
    ensures r.Ok? ==> SkipTrailer(old(pending0 + stream.Unread())) == Done([], rest) && EndsWith(rest, stream.Unread())
    ensures r.Err? ==> r.error == Io || r.error == Closed
    ensures r == Err(Closed) ==> SkipTrailer(old(pending0 + stream.Unread())) == Truncated
  {
    hide *;
    var pending := pending0;
    ghost var all := pending0 + stream.Unread();
    rest := [];
    while true
      invariant stream.Valid() && !stream.failed
      invariant SkipTrailer(pending + stream.Unread()) == SkipTrailer(all)
      decreases |pending + stream.Unread()|
    {
      ghost var unseen := pending + stream.Unread();
      TrailerLine(unseen);
      var line, more := ReadLine(stream, pending, false, limit);
      if line.Err? {
        return Err(line.error), rest;
      }
      pending := more[line.value + 2..];
      assert unseen[line.value + 2..] == pending + stream.Unread();
      if line.value == 0 {
        rest := pending + stream.Unread();
        SuffixEnds(pending, stream.Unread());
        return Ok(()), rest;
      }
    }
  }

  // What the connection still holds lies behind the body: no byte of the body is left unread.
  ghost predicate EndsWith(xs: seq<byte>, ys: seq<byte>) {
    |ys| <= |xs| && xs[|xs| - |ys|..] == ys
  }

  lemma SuffixEnds(xs: seq<byte>, ys: seq<byte>)
    ensures EndsWith(xs + ys, ys)
  {}

  // A chunk-size line: bounded in length, valid UTF-8, and a size before any extension.
  method ReadSize(utf8: seq<byte> -> bool, stream: Stream, pending0: seq<byte>)
    returns (r: Result<nat, Failure>, pending: seq<byte>, ghost p: nat)
    requires stream.Valid() && !stream.failed
    modifies stream`pos, stream`failed
    ensures stream.Valid() && (stream.failed <==> r == Err(Io))
    ensures var all := old(pending0 + stream.Unread());
      && (r.Ok? ==> p + 2 <= |all| && FindCrlf(all) == Some(p) && ParseSize(all[..p]) == Some(r.value)
                    && pending + stream.Unread() == all[p + 2..])
      && (r.Err? && r.error != Io && LinesFit(utf8, all) ==> !Decode(all).Done?)
  {
    hide *;
    p := 0;
    ghost var all := pending0 + stream.Unread();
    BadSizeLine(utf8, all);
    var line, more := ReadLine(stream, pending0, true, STREAM_LIMIT);
    if line.Err? {
      if line.error == LineTooLong { TooLongDoesNotFit(all); }
      return Err(line.error), more, p;
    }
    p := line.value;
    assert more[..p] == all[..p] && more[p + 2..] + stream.Unread() == all[p + 2..];
    if !utf8(more[..line.value]) {
      return Err(BadEncoding), more, p;
    }
    var parsed := ParseSize(more[..line.value]);
    if parsed.None? {
      return Err(BadSize), more, p;
    }
    r, pending := Ok(parsed.value), more[line.value + 2..];
  }

  // The streaming decoder against its specification: it succeeds only on a whole well-formed
  // body, having fed the sink exactly the payload and left the connection behind the body; where
  // the size lines fit it fails on no such body unless the connection does, and even then the
  // sink saw nothing but a prefix of the payload.
  method StreamChunkedBody(utf8: seq<byte> -> bool, stream: Stream, pending0: seq<byte>, sink: NdjsonLineSplitter)
    returns (r: Result<(), Failure>)
    requires stream.Valid() && !stream.failed && sink.Valid()
    modifies stream`pos, stream`failed, sink
    ensures stream.Valid() && sink.Valid() && (stream.failed <==> r == Err(Io))
    ensures var d := Decode(old(pending0 + stream.Unread()));
      && (r.Ok? ==> d.Done? && sink.fed == old(sink.fed) + d.payload && EndsWith(d.rest, stream.Unread()))
      && (r.Err? && r.error != Io && LinesFit(utf8, old(pending0 + stream.Unread())) ==> !d.Done?)
      && (d.Done? ==> sink.fed <= old(sink.fed) + d.payload)
  {
    hide *;
    var pending := pending0;
    ghost var all := pending0 + stream.Unread();
    ghost var fed := [];
    PrependNothing(Decode(all));
    while true
      invariant stream.Valid() && !stream.failed && sink.Valid() && sink.fed == old(sink.fed) + fed
      invariant Decode(all) == Prepend(fed, Decode(pending + stream.Unread()))
      invariant LinesFit(utf8, all) ==> LinesFit(utf8, pending + stream.Unread())
      decreases |pending + stream.Unread()|
    {
      ghost var unseen := pending + stream.Unread();
      PrependShape(fed, Decode(unseen));
      var line, more, p := ReadSize(utf8, stream, pending);
      if line.Err? {
        return Err(line.error);
      }
      var size := line.value;
      pending := more;
      ghost var body := unseen[p + 2..];
      ChunkStep(utf8, unseen, p, size, body);
      if size == 0 {
        ghost var rest;
        r, rest := ReadTrailer(stream, pending, STREAM_LIMIT);
        return;
      }
      PrependShape(body[..if size <= |body| then size else 0],
        if |body| >= size + 2 then Decode(body[size..][2..]) else Truncated);
      var delivered, left := DeliverChunk(stream, pending, size, sink);
      if delivered.Err? {
        return Err(delivered.error);
      }
      var ended, next := ExpectCrlf(stream, left);
      if ended.Err? {
        return Err(ended.error);
      }
      pending := next;
      PrependTwice(fed, body[..size], Decode(body[size..][2..]));
      fed := fed + body[..size];
    }
  }

  lemma PrependShape(xs: seq<byte>, d: Decoded)
    ensures Prepend(xs, d).Done? <==> d.Done?
    ensures d.Done? ==> Prepend(xs, d).payload == xs + d.payload && Prepend(xs, d).rest == d.rest
  {}

  lemma TooLongDoesNotFit(data: seq<byte>)
    requires NoShortLine(data)
    ensures FindCrlf(data).Some? ==> FindCrlf(data).value >= MAX_LINE
  {}

  // ---------------------------------------------------------------- the buffering decoder

  method EnsurePending(stream: Stream, pending0: seq<byte>, needed: nat)
    returns (r: Result<(), Failure>, pending: seq<byte>)
    requires stream.Valid() && !stream.failed
    modifies stream`pos, stream`failed
    ensures stream.Valid() && (stream.failed <==> r == Err(Io))
    ensures r.Ok? ==> pending + stream.Unread() == old(pending0 + stream.Unread()) && |pending| >= needed
    ensures r.Err? ==> r.error == Io || r.error == Closed
    ensures r == Err(Closed) ==> |old(pending0 + stream.Unread())| < needed
  {
    hide *;
    pending := pending0;
    ghost var all := pending0 + stream.Unread();
    while |pending| < needed
      invariant stream.Valid() && !stream.failed && pending + stream.Unread() == all
      decreases |stream.Unread()|
    {
      var filled := stream.Fill(pending, READ_LIMIT);
      if filled.Err? {
        return Err(filled.error), pending;
      }
      pending := filled.value;
    }
    r := Ok(());
  }

  // The buffering decoder against the same specification. It bounds no line and asks for no
  // encoding, so on a connection that does not fail it succeeds exactly on well-formed bodies.
  // (For the two greatest sizes, size + 2 does not fit a machine word; no body is that long.)
  method ReadChunkedBody(stream: Stream, pending0: seq<byte>) returns (r: Result<seq<byte>, Failure>)
    requires stream.Valid() && !stream.failed
    modifies stream`pos, stream`failed
    ensures stream.Valid() && (stream.failed <==> r == Err(Io))
    ensures var all := old(pending0 + stream.Unread()); var d := Decode(all);
      && (r.Ok? ==> d.Done? && r.value == d.payload && EndsWith(d.rest, stream.Unread()))
      && (r.Err? && r.error != Io && |all| < U64 ==> !d.Done?)
  {
    hide Decode, FindCrlf, ParseSize, SkipTrailer, Prepend, FirstCrlfAt, EndsWith;
    var pending := pending0;
    ghost var all := pending0 + stream.Unread();
    var body := [];
    PrependNothing(Decode(all));
    while true
      invariant stream.Valid() && !stream.failed && |pending + stream.Unread()| <= |all|
      invariant Decode(all) == Prepend(body, Decode(pending + stream.Unread()))
      decreases |pending + stream.Unread()|
    {
      ghost var unseen := pending + stream.Unread();
      BadSizeLine(_ => true, unseen);
      PrependShape(body, Decode(unseen));
      var line, more := ReadLine(stream, pending, false, READ_LIMIT);
      if line.Err? {
        return Err(line.error);
      }
      var p := line.value;
      assert more[..p] == unseen[..p] && more[p + 2..] + stream.Unread() == unseen[p + 2..];
      var parsed := ParseSize(more[..p]);
      pending := more[p + 2..];
      if parsed.None? {
        return Err(BadSize);
      }
      ChunkStep(_ => true, unseen, p, parsed.value, unseen[p + 2..]);
      if parsed.value == 0 {
        var end, _ := ReadTrailer(stream, pending, READ_LIMIT);
        return if end.Ok? then Ok(body) else Err(end.error);
      }
      ghost var before, data := body, unseen[p + 2..];
      r, pending, body := BufferChunk(stream, pending, parsed.value, body);
      if r.Err? {
        return;
      }
      PrependTwice(before, data[..parsed.value], Decode(data[parsed.value..][2..]));
    }
  }

  // One chunk's data and its CRLF, held in `pending` as a whole before it is looked at.
  method BufferChunk(stream: Stream, pending0: seq<byte>, size: nat, body0: seq<byte>)
    returns (r: Result<seq<byte>, Failure>, pending: seq<byte>, body: seq<byte>)
    requires stream.Valid() && !stream.failed && size > 0
    modifies stream`pos, stream`failed
    ensures stream.Valid() && (stream.failed <==> r == Err(Io))
    ensures var all := old(pending0 + stream.Unread());
      && (r.Ok? ==> |all| >= size + 2 && all[size..][..2] == CRLF && body == body0 + all[..size]
                    && pending + stream.Unread() == all[size..][2..])
      && (r.Err? && r.error != Io && |all| < U64 ==> |all| < size + 2 || all[size..][..2] != CRLF)
  {
    hide *;
    ghost var all := pending0 + stream.Unread();
    body := body0;
    if size + 2 >= U64 {
      return Err(SizeOverflow), pending0, body;
    }
    var filled;
    filled, pending := EnsurePending(stream, pending0, size + 2);
    if filled.Err? {
      return Err(filled.error), pending, body;
    }
    assert all[..size] == pending[..size] && all[size..][..2] == pending[size..size + 2];
    assert all[size..][2..] == pending[size + 2..] + stream.Unread();
    body := body + pending[..size];
    if pending[size..size + 2] != CRLF {
      return Err(BadTerminator), pending, body;
    }
    r, pending := Ok(body), pending[size + 2..];
  }

  // ---------------------------------------------------------------- Content-Length and the rest

  method StreamSizedBody(stream: Stream, pending: seq<byte>, total: nat, sink: NdjsonLineSplitter)
    returns (r: Result<nat, Failure>)
    requires stream.Valid() && !stream.failed && sink.Valid()
    modifies stream`pos, stream`failed, sink
    ensures stream.Valid() && sink.Valid() && (stream.failed <==> r == Err(Io))
    ensures r.Err? ==> r.error == Io || r.error == Closed
    ensures var all := old(pending + stream.Unread());
      && (r.Ok? ==>
           && r.value == total <= |all| && sink.fed == old(sink.fed) + all[..total]
           && EndsWith(all[total..], stream.Unread()))
      && (r == Err(Closed) ==> |all| < total)
      && (total <= |all| ==> sink.fed <= old(sink.fed) + all[..total])
  {
    hide *;
    ghost var all, before := pending + stream.Unread(), sink.fed;
    ghost var left := pending;
    var consumed := 0;
    NothingDelivered(all, before);
    if pending != [] {
      var take := if |pending| < total then |pending| else total;
      DeliverMore(all, before, before, pending, stream.Unread(), 0, take);
      sink.Feed(pending[..take]);
      consumed := consumed + take;
      left := pending[take..];
    }
    while consumed < total
      invariant stream.Valid() && !stream.failed && sink.Valid() && 0 <= consumed <= total
      invariant Delivered(all, before, sink.fed, left + stream.Unread(), consumed)
      invariant consumed < total ==> left == []
      decreases total - consumed
    {
      DeliveredMeans(all, before, sink.fed, left + stream.Unread(), consumed, total);
      ghost var unread := stream.Unread();
      assert left + unread == unread;
      var ok, chunk := stream.Read(STREAM_LIMIT);
      if !ok {
        return Err(Io);
      }
      if chunk == [] {
        return Err(Closed);
      }
      var take := if |chunk| < total - consumed then |chunk| else total - consumed;
      DeliverMore(all, before, sink.fed, chunk, stream.Unread(), consumed, take);
      sink.Feed(chunk[..take]);
      consumed := consumed + take;
      left := chunk[take..];
    }
    DeliveredMeans(all, before, sink.fed, left + stream.Unread(), total, total);
    SuffixEnds(left, stream.Unread());
    r := Ok(consumed);
  }

  method StreamToEnd(stream: Stream, pending: seq<byte>, sink: NdjsonLineSplitter) returns (r: Result<(), Failure>)
    requires stream.Valid() && !stream.failed && sink.Valid()
    modifies stream`pos, stream`failed, sink
    ensures stream.Valid() && sink.Valid() && (stream.failed <==> r.Err?) && (r.Err? ==> r.error == Io)
    ensures r.Ok? ==> sink.fed == old(sink.fed) + old(pending + stream.Unread())
    ensures sink.fed <= old(sink.fed) + old(pending + stream.Unread())
  {
    hide *;
    ghost var goal := sink.fed + (pending + stream.Unread());
    sink.Feed(pending);
    while true
      invariant stream.Valid() && !stream.failed && sink.Valid()
      invariant sink.fed + stream.Unread() == goal
      decreases |stream.Unread()|
    {
      ghost var fed, unread := sink.fed, stream.Unread();
      var ok, chunk := stream.Read(STREAM_LIMIT);
      if !ok {
        assert goal == fed + unread;
        return Err(Io);
      }
      if chunk == [] {
        return Ok(());
      }
      assert fed + unread == fed + chunk + stream.Unread();
      sink.Feed(chunk);
    }
  }

  // ---------------------------------------------------------------- NDJSON over any framing

  datatype Framing = ChunkedCoding | Sized(total: nat) | ToEnd

  // The body a framing cuts out of the bytes behind the headers.
  function BodyOf(framing: Framing, data: seq<byte>): Decoded {
    match framing
    case ChunkedCoding => Decode(data)
    case Sized(total) => if total <= |data| then Done(data[..total], data[total..]) else Truncated
    case ToEnd => Done(data, [])
  }

  // The body half of a request for NDJSON: for every framing, every cut between the bytes read
  // with the headers and the reads that follow, the lines delivered are those of the payload.
  // When it fails, what was delivered is the start of them; and it fails only for the connection's
  // failure, a malformed or cut-off body, or size lines beyond the limits.
  method NdjsonBody(utf8: seq<byte> -> bool, stream: Stream, framing: Framing, pending: seq<byte>, close: bool)
    returns (r: Result<bool, Failure>, lines: seq<seq<byte>>)
    requires stream.Valid() && !stream.failed
    modifies stream`pos, stream`failed
    ensures stream.Valid() && (stream.failed <==> r == Err(Io))
    ensures var all := old(pending + stream.Unread()); var d := BodyOf(framing, all);
      && (r.Ok? ==> d.Done? && lines == AllLines(d.payload) && r.value == (framing != ToEnd && !close))
      && (r.Ok? && r.value ==> EndsWith(d.rest, stream.Unread()))
      && (r.Err? && r.error != Io && (framing == ChunkedCoding ==> LinesFit(utf8, all)) ==> !d.Done?)
      && (d.Done? ==> lines <= AllLines(d.payload))
  {
    hide Decode, LinesFit, EndsWith, CompleteLines, Remainder, FindLf, Strip, AllLines;
    var splitter := new NdjsonLineSplitter();
    ghost var d := BodyOf(framing, pending + stream.Unread());
    var failure := None;
    match framing {
      case ChunkedCoding =>
        var done := StreamChunkedBody(utf8, stream, pending, splitter);
        failure := if done.Err? then Some(done.error) else None;
      case Sized(total) =>
        var done := StreamSizedBody(stream, pending, total, splitter);
        failure := if done.Err? then Some(done.error) else None;
      case ToEnd =>
        var done := StreamToEnd(stream, pending, splitter);
        failure := if done.Err? then Some(done.error) else None;
    }
    if failure.Some? {
      lines := splitter.lines;
      if d.Done? {
        assert [] + d.payload == d.payload && splitter.fed <= d.payload;
        LinesOfPrefix(splitter.fed, d.payload);
      }
      return Err(failure.value), lines;
    }
    splitter.Finish();
    assert [] + d.payload == d.payload;
    r, lines := Ok(framing != ToEnd && !close), splitter.lines;
  }

  // Lines complete in a prefix are the first lines of the whole.
  lemma LinesOfPrefix(xs: seq<byte>, whole: seq<byte>)
    requires xs <= whole
    ensures CompleteLines(xs) <= AllLines(whole)
  {
    hide FindLf, Strip, CompleteLines, Remainder;
    var ys := whole[|xs|..];
    assert whole == xs + ys;
    SplitConcat(xs, ys);
  }

  // A peer that encodes correctly is read correctly by both decoders, however its bytes arrive.
  method ReceiveEncoded(utf8: seq<byte> -> bool, body: Body, rest: seq<byte>, cut: nat)
    returns (streamed: Result<bool, Failure>, lines: seq<seq<byte>>, buffered: Result<seq<byte>, Failure>)
    requires body.WellFormed() && body.FitsLimits(utf8) && cut <= |body.Written() + rest| < U64
    ensures streamed.Ok? ==> lines == AllLines(body.Payload())
    ensures buffered.Ok? ==> buffered.value == body.Payload()
    ensures (streamed.Err? ==> streamed.error == Io && lines <= AllLines(body.Payload())) && (buffered.Err? ==>
      buffered.error == Io)
  {
    hide Decode, LinesFit, EndsWith, AllLines;
    var wire := body.Written() + rest;
    DecodeUndoesEncode(body, rest);
    EncodedLinesFit(utf8, body, rest);
    assert wire == wire[..cut] + wire[cut..];
    var stream := new Stream(wire[cut..]);
    streamed, lines := NdjsonBody(utf8, stream, ChunkedCoding, wire[..cut], false);
    var again := new Stream(wire[cut..]);
    buffered := ReadChunkedBody(again, wire[..cut]);
  }
}
