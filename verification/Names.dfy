// How src/core/collector.rs stores Linux paths, which are bytes, under names that Windows can
// hold, and the manifest that remembers the originals.
module Names {
  import opened Wrappers
  import opened Bytes

  type Name = seq<byte>
  type Path = seq<Name>

  const SLASH: byte := 47
  const DOT: byte := 46
  const DOTS: Name := [46, 46]

  // ".auto_sync_name"
  const ENCODED_DIR: Name := [46, 97, 117, 116, 111, 95, 115, 121, 110, 99, 95, 110, 97, 109, 101]

  // UTF-8 validity, the first 32 hex digits of a hash, and the names at hand: however many they
  // are, the truncated hash is taken to tell these apart. It cannot tell all names apart.
  datatype Codec = Codec(utf8: Name -> bool, hash: Name -> Name, names: set<Name>)
  {
    ghost predicate Valid() {
      && (forall n: Name :: (forall i :: 0 <= i < |n| ==> n[i] < 128) ==> utf8(n))
      && (forall n: Name :: |hash(n)| == 32 && IsLowerHex(hash(n)))
    }

    ghost predicate Injective() {
      forall m, n :: m in names && n in names && hash(m) == hash(n) ==> m == n
    }
  }

  // ---------------------------------------------------------------- hex

  predicate IsLowerHex(s: Name) {
    forall i :: 0 <= i < |s| ==> 48 <= s[i] <= 57 || 97 <= s[i] <= 102
  }

  function Digit(n: int): byte
    requires 0 <= n < 16
  {
    if n < 10 then 48 + n else 87 + n
  }

  function Hex(bytes: seq<byte>): (r: Name)
    ensures |r| == 2 * |bytes|
  {
    if bytes == [] then [] else [Digit(bytes[0] / 16), Digit(bytes[0] % 16)] + Hex(bytes[1..])
  }

  method HexEncode(bytes: seq<byte>) returns (out: Name)
    ensures out == Hex(bytes)
  {
    out := [];
    for i := 0 to |bytes|
      invariant Hex(bytes) == out + Hex(bytes[i..])
    {
      HexNext(bytes, i);
      out := out + [Digit(bytes[i] / 16)];
      out := out + [Digit(bytes[i] % 16)];
    }
  }

  lemma HexNext(bytes: seq<byte>, i: nat)
    requires i < |bytes|
    ensures Hex(bytes[i..]) == [Digit(bytes[i] / 16), Digit(bytes[i] % 16)] + Hex(bytes[i + 1..])
  {
    assert bytes[i..][1..] == bytes[i + 1..];
  }

  function Nibble(b: byte): (r: Option<int>)
    ensures r.Some? ==> 0 <= r.value < 16
  {
    if 48 <= b <= 57 then Some(b - 48)
    else if 97 <= b <= 102 then Some(b - 87)
    else if 65 <= b <= 70 then Some(b - 55)
    else None
  }

  function Unhex(text: Name): (r: Option<seq<byte>>)
    ensures r.Some? ==> |text| == 2 * |r.value|
  {
    if text == [] then Some([])
    else if |text| == 1 || Nibble(text[0]).None? || Nibble(text[1]).None? then None
    else
      match Unhex(text[2..])
      case None => None
      case Some(rest) => Some([16 * Nibble(text[0]).value + Nibble(text[1]).value] + rest)
  }

  method HexDecode(text: Name) returns (r: Option<seq<byte>>)
    ensures r == Unhex(text)
  {
    if |text| % 2 != 0 {
      OddNeverDecodes(text);
      return None;
    }
    hide *;
    var out: seq<byte> := [];
    var i := 0;
    GlueNothing(Unhex(text));
    assert text[0..] == text;
    while i < |text|
      invariant 0 <= i <= |text| && (|text| - i) % 2 == 0
      invariant Unhex(text) == Glue(out, Unhex(text[i..]))
    {
      UnhexNext(text, i, out);
      var hi, lo := Nibble(text[i]), Nibble(text[i + 1]);
      if hi.None? || lo.None? {
        return None;
      }
      out := out + [16 * hi.value + lo.value];
      i := i + 2;
    }
    assert text[i..] == [];
    GlueEnd(out);
    UnhexNothing();
    r := Some(out);
  }

  function Glue(out: seq<byte>, rest: Option<seq<byte>>): Option<seq<byte>> {
    if rest.None? then None else Some(out + rest.value)
  }

  lemma GlueNothing(rest: Option<seq<byte>>)
    ensures Glue([], rest) == rest
  {
    if rest.Some? { assert [] + rest.value == rest.value; }
  }

  lemma GlueEnd(out: seq<byte>)
    ensures Glue(out, Some([])) == Some(out) && Glue(out, None) == None
  {
    assert out + [] == out;
  }

  lemma GlueTwice(a: seq<byte>, b: seq<byte>, rest: Option<seq<byte>>)
    ensures Glue(a, Glue(b, rest)) == Glue(a + b, rest)
  {
    if rest.Some? { assert a + (b + rest.value) == a + b + rest.value; }
  }

  lemma UnhexNothing()
    ensures Unhex([]) == Some([])
  {}

  lemma UnhexPair(text: Name, i: nat)
    requires i + 1 < |text|
    ensures Unhex(text[i..]) ==
      if Nibble(text[i]).None? || Nibble(text[i + 1]).None? then None
      else Glue([16 * Nibble(text[i]).value + Nibble(text[i + 1]).value], Unhex(text[i + 2..]))
  {
    hide Nibble;
    assert text[i..][2..] == text[i + 2..];
  }

  lemma UnhexNext(text: Name, i: nat, out: seq<byte>)
    requires i + 1 < |text| && Unhex(text) == Glue(out, Unhex(text[i..]))
    ensures var hi, lo := Nibble(text[i]), Nibble(text[i + 1]);
      if hi.None? || lo.None? then Unhex(text).None?
      else Unhex(text) == Glue(out + [16 * hi.value + lo.value], Unhex(text[i + 2..]))
  {
    hide *;
    UnhexPair(text, i);
    GlueEnd(out);
    var hi, lo := Nibble(text[i]), Nibble(text[i + 1]);
    if hi.Some? && lo.Some? {
      GlueTwice(out, [16 * hi.value + lo.value], Unhex(text[i + 2..]));
    }
  }

  lemma OddNeverDecodes(text: Name)
    requires |text| % 2 != 0
    ensures Unhex(text).None?
  {}

  lemma {:induction false} HexRoundTrip(bytes: seq<byte>)
    ensures Unhex(Hex(bytes)) == Some(bytes)
  {
    if bytes != [] {
      hide Unhex;
      HexRoundTrip(bytes[1..]);
      var text := Hex(bytes);
      assert text[2..] == Hex(bytes[1..]) && text[0..] == text;
      UnhexPair(text, 0);
      assert [bytes[0]] + bytes[1..] == bytes;
    }
  }

  lemma DigitPrinted(n: int)
    requires 0 <= n < 16
    ensures Digit(n) == HexChar(n)
  {}

  // Two digits a byte, the greater half first.
  lemma {:induction false} HexAt(bytes: seq<byte>, i: nat)
    requires i < |bytes|
    ensures Hex(bytes)[2 * i] == HexChar(bytes[i] / 16) && Hex(bytes)[2 * i + 1] == HexChar(bytes[i] % 16)
  {
    if i > 0 {
      HexAt(bytes[1..], i - 1);
    }
  }

  lemma NibbleIff(b: byte, n: int)
    ensures Nibble(b) == Some(n) <==> 0 <= n < 16 && LowerCase(b) == Digit(n)
  {}

  // What is decoded to some bytes is their encoding, but for the case of its letters.
  lemma {:induction false} UnhexIff(text: Name, bytes: seq<byte>)
    ensures Unhex(text) == Some(bytes) <==> Lowered(text) == Hex(bytes)
    decreases |text|
  {
    hide Nibble, Digit, LowerCase;
    if |text| == 2 * |bytes| && text != [] {
      UnhexIff(text[2..], bytes[1..]);
      NibbleIff(text[0], bytes[0] / 16);
      NibbleIff(text[1], bytes[0] % 16);
      assert Lowered(text) == [LowerCase(text[0]), LowerCase(text[1])] + Lowered(text[2..]);
      SplitPair(LowerCase(text[0]), LowerCase(text[1]), Lowered(text[2..]),
        Digit(bytes[0] / 16), Digit(bytes[0] % 16), Hex(bytes[1..]));
      assert bytes == [bytes[0]] + bytes[1..];
      if Nibble(text[0]).Some? && Nibble(text[1]).Some? {
        Halves(Nibble(text[0]).value, Nibble(text[1]).value);
      }
    }
  }

  lemma SplitPair(a: byte, b: byte, s: Name, x: byte, y: byte, t: Name)
    ensures [a, b] + s == [x, y] + t <==> a == x && b == y && s == t
  {
    assert ([a, b] + s)[2..] == s && ([x, y] + t)[2..] == t;
    assert ([a, b] + s)[0] == a && ([a, b] + s)[1] == b && ([x, y] + t)[0] == x && ([x, y] + t)[1] == y;
  }

  lemma Halves(hi: int, lo: int)
    requires 0 <= hi < 16 && 0 <= lo < 16
    ensures (16 * hi + lo) / 16 == hi && (16 * hi + lo) % 16 == lo
  {}

  // ---------------------------------------------------------------- paths and their texts

  // What lies between the slashes.
  function Split(text: Name): (r: seq<Name>)
    ensures |r| > 0 && forall i :: 0 <= i < |r| ==> SLASH !in r[i]
  {
    if text == [] then [[]]
    else
      var rest := Split(text[1..]);
      if text[0] == SLASH then [[]] + rest else [[text[0]] + rest[0]] + rest[1..]
  }

  function Join(parts: seq<Name>): Name {
    if parts == [] then []
    else if |parts| == 1 then parts[0]
    else parts[0] + [SLASH] + Join(parts[1..])
  }

  function Lead(first: byte, parts: seq<Name>): (r: seq<Name>)
    requires |parts| > 0
    ensures |r| > 0
  {
    if first == SLASH then [[]] + parts else [[first] + parts[0]] + parts[1..]
  }

  lemma SplitCons(first: byte, text: Name)
    ensures Split([first] + text) == Lead(first, Split(text))
  {
    assert ([first] + text)[1..] == text;
  }

  lemma {:induction false} SplitAtSlash(a: Name, b: Name)
    ensures Split(a + [SLASH] + b) == Split(a) + Split(b)
  {
    hide Split;
    if a == [] {
      SplitCons(SLASH, b);
      SplitPlain([]);
      assert a + [SLASH] + b == [SLASH] + b;
    } else {
      SplitAtSlash(a[1..], b);
      SplitCons(a[0], a[1..]);
      SplitCons(a[0], a[1..] + [SLASH] + b);
      assert a == [a[0]] + a[1..] && a + [SLASH] + b == [a[0]] + (a[1..] + [SLASH] + b);
    }
  }

  lemma {:induction false} SplitPlain(name: Name)
    requires SLASH !in name
    ensures Split(name) == [name]
  {
    if name != [] {
      SplitPlain(name[1..]);
      SplitCons(name[0], name[1..]);
      assert name == [name[0]] + name[1..];
    }
  }

  // Joining loses nothing about parts that hold no slash.
  lemma {:induction false} SplitUndoesJoin(parts: seq<Name>)
    requires parts != [] && forall i :: 0 <= i < |parts| ==> SLASH !in parts[i]
    ensures Split(Join(parts)) == parts
  {
    hide Split;
    SplitPlain(parts[0]);
    if |parts| > 1 {
      SplitAtSlash(parts[0], Join(parts[1..]));
      SplitUndoesJoin(parts[1..]);
    }
  }

  // Splitting loses nothing either.
  lemma {:induction false} JoinUndoesSplit(text: Name)
    ensures Join(Split(text)) == text
  {
    if text != [] {
      JoinUndoesSplit(text[1..]);
      var rest := Split(text[1..]);
      assert text == [text[0]] + text[1..];
      if text[0] == SLASH {
        assert ([[]] + rest)[1..] == rest;
      } else {
        assert ([[text[0]] + rest[0]] + rest[1..])[1..] == rest[1..];
      }
    }
  }

  predicate IsPart(name: Name) {
    name != [] && name != [DOT] && name != DOTS && SLASH !in name
  }

  predicate IsPath(path: Path) {
    forall i :: 0 <= i < |path| ==> IsPart(path[i])
  }

  lemma {:induction false} JoinAppend(r: Path, t: Path)
    requires r != [] && t != []
    ensures Join(r + t) == Join(r) + [SLASH] + Join(t)
  {
    if |r| > 1 {
      JoinAppend(r[1..], t);
      assert (r + t)[1..] == r[1..] + t;
    } else {
      assert (r + t)[1..] == t;
    }
  }

  // path_is_under_root, a test on texts, is the prefix relation on paths.
  predicate IsUnder(path: Name, root: Name) {
    path == root || root + [SLASH] <= path
  }

  lemma UnderIsPrefix(path: Path, root: Path)
    requires IsPath(path) && IsPath(root) && path != [] && root != []
    ensures IsUnder(Join(path), Join(root)) <==> root <= path
  {
    hide Split, Join;
    if root <= path {
      var t := path[|root|..];
      assert path == root + t;
      if t == [] {
        assert path == root;
      } else {
        JoinAppend(root, t);
      }
    }
    if IsUnder(Join(path), Join(root)) {
      UnderMeansPrefix(path, root);
    }
  }

  lemma UnderMeansPrefix(path: Path, root: Path)
    requires IsPath(path) && IsPath(root) && path != [] && root != [] && IsUnder(Join(path), Join(root))
    ensures root <= path
  {
    hide Split, Join;
    SplitUndoesJoin(path);
    SplitUndoesJoin(root);
    if Join(path) != Join(root) {
      var tail := Join(path)[|Join(root)| + 1..];
      assert Join(path) == Join(root) + [SLASH] + tail;
      SplitAtSlash(Join(root), tail);
    }
  }

  // ---------------------------------------------------------------- safe names

  function Upper(b: byte): byte {
    if 97 <= b <= 122 then b - 32 else b
  }

  // The text before the first dot, in upper case.
  function Stem(name: Name): (r: Name)
    ensures |r| <= |name| && (|r| < |name| ==> name[|r|] == DOT)
    ensures forall i :: 0 <= i < |r| ==> name[i] != DOT && r[i] == Upper(name[i])
  {
    if name == [] || name[0] == DOT then [] else [Upper(name[0])] + Stem(name[1..])
  }

  // CON, PRN, AUX, NUL, COM1 to COM9 and LPT1 to LPT9.
  predicate IsDevice(stem: Name) {
    || stem in [[67, 79, 78], [80, 82, 78], [65, 85, 88], [78, 85, 76]]
    || (|stem| == 4 && stem[..3] in [[67, 79, 77], [76, 80, 84]] && 49 <= stem[3] <= 57)
  }

  // A control character or one of < > : " \ | ? *
  predicate IsForbidden(b: byte) {
    b < 32 || b in [60, 62, 58, 34, 92, 124, 63, 42]
  }

  predicate IsSafe(c: Codec, name: Name) {
    && c.utf8(name) && name != [] && name != [DOT] && name != DOTS
    && name[|name| - 1] != 32 && name[|name| - 1] != DOT
    && (forall i :: 0 <= i < |name| ==> !IsForbidden(name[i]))
    && !IsDevice(Stem(name))
  }

  predicate AllSafe(c: Codec, path: Path) {
    forall i :: 0 <= i < |path| ==> IsSafe(c, path[i])
  }

  lemma {:induction false} StemOfDotless(name: Name)
    requires DOT !in name
    ensures |Stem(name)| == |name|
  {
    if name != [] {
      StemOfDotless(name[1..]);
    }
  }

  // ---------------------------------------------------------------- safe names, in letters

  // The name is this word, in letters of either case, as it stands or with a dot behind it.
  predicate Says(name: Name, word: string)
    requires forall i :: 0 <= i < |word| ==> 'A' <= word[i] <= 'Z' || '0' <= word[i] <= '9'
  {
    && |word| <= |name| && (|name| == |word| || name[|word|] == '.' as int)
    && forall i :: 0 <= i < |word| ==>
         name[i] == word[i] as int || ('A' <= word[i] <= 'Z' && name[i] == word[i] as int + 32)
  }

  lemma SaysIff(name: Name, word: string)
    requires forall i :: 0 <= i < |word| ==> 'A' <= word[i] <= 'Z' || '0' <= word[i] <= '9'
    ensures Says(name, word) <==> Stem(name) == Ascii(word)
  {
    hide Stem;
    var stem := Stem(name);
    if stem == Ascii(word) {
      forall i | 0 <= i < |word|
        ensures name[i] == word[i] as int || ('A' <= word[i] <= 'Z' && name[i] == word[i] as int + 32)
      {
        assert Upper(name[i]) == stem[i] == Ascii(word)[i];
      }
    }
    if Says(name, word) {
      assert |stem| == |word|;
      assert forall i :: 0 <= i < |word| ==> stem[i] == Ascii(word)[i];
    }
  }

  lemma DeviceWords()
    ensures Ascii("CON") == [67, 79, 78] && Ascii("PRN") == [80, 82, 78] && Ascii("AUX") == [65, 85, 88]
    ensures Ascii("NUL") == [78, 85, 76] && Ascii("COM") == [67, 79, 77] && Ascii("LPT") == [76, 80, 84]
    ensures forall word: string, n: char ::
      (word == "COM" || word == "LPT") && '1' <= n <= '9' ==> Ascii(word + [n]) == Ascii(word) + [n as int as byte]
  {
    forall word: string, n: char | (word == "COM" || word == "LPT") && '1' <= n <= '9'
      ensures Ascii(word + [n]) == Ascii(word) + [n as int as byte]
    {}
  }

  // The devices of Windows: four words, and two with a digit from 1 to 9.
  predicate IsDeviceName(name: Name) {
    || Says(name, "CON") || Says(name, "PRN") || Says(name, "AUX") || Says(name, "NUL")
    || exists n: char :: '1' <= n <= '9' && (Says(name, "COM" + [n]) || Says(name, "LPT" + [n]))
  }

  lemma DeviceIff(name: Name)
    ensures IsDevice(Stem(name)) <==> IsDeviceName(name)
  {
    hide Stem, Says, Ascii;
    DeviceWords();
    var stem := Stem(name);
    SaysIff(name, "CON");
    SaysIff(name, "PRN");
    SaysIff(name, "AUX");
    SaysIff(name, "NUL");
    if |stem| == 4 && stem[..3] in [Ascii("COM"), Ascii("LPT")] && 49 <= stem[3] <= 57 {
      var n := stem[3] as char;
      NumberedIff(name, n);
      assert stem == stem[..3] + [n as int as byte];
    }
    if n: char :| '1' <= n <= '9' && (Says(name, "COM" + [n]) || Says(name, "LPT" + [n])) {
      NumberedIff(name, n);
      assert stem[..3] in [Ascii("COM"), Ascii("LPT")] && stem[3] == n as int;
    }
  }

  lemma NumberedIff(name: Name, n: char)
    requires '1' <= n <= '9'
    ensures Says(name, "COM" + [n]) <==> Stem(name) == Ascii("COM") + [n as int as byte]
    ensures Says(name, "LPT" + [n]) <==> Stem(name) == Ascii("LPT") + [n as int as byte]
  {
    hide Stem, Says, Ascii;
    DeviceWords();
    SaysIff(name, "COM" + [n]);
    SaysIff(name, "LPT" + [n]);
  }

  // The names that are stored as they are: text that is not empty or a dot or two, does not end in a
  // blank or a dot, has no control character and none of these eight, and names no device.
  lemma SafeIff(c: Codec, name: Name)
    ensures IsSafe(c, name) <==>
      && c.utf8(name) && name != [] && name != Ascii(".") && name != Ascii("..")
      && name[|name| - 1] != ' ' as int && name[|name| - 1] != '.' as int
      && (forall i :: 0 <= i < |name| ==> name[i] >= 32 && name[i] !in Ascii("<>:\"\\|?*"))
      && !IsDeviceName(name)
  {
    hide IsDevice, IsDeviceName, Stem;
    DeviceIff(name);
    assert Ascii(".") == [DOT] && Ascii("..") == DOTS;
    assert Ascii("<>:\"\\|?*") == [60, 62, 58, 34, 92, 124, 63, 42];
  }

  lemma EncodedDirIs()
    ensures ENCODED_DIR == Ascii(".auto_sync_name") && [SLASH] == Ascii("/")
  {}

  // What the encoding itself writes is safe.
  lemma HashIsSafe(c: Codec, name: Name)
    requires c.Valid()
    ensures IsSafe(c, c.hash(name)) && IsPart(c.hash(name)) && c.hash(name) != ENCODED_DIR
  {
    hide Stem, IsDevice, ENCODED_DIR;
    var h := c.hash(name);
    assert IsLowerHex(h) && |h| == 32;
    assert forall i :: 0 <= i < |h| ==> h[i] < 128 && h[i] != DOT && h[i] != SLASH && h[i] != 32;
    assert c.utf8(h);
    StemOfDotless(h);
    LongIsNoDevice(Stem(h));
    EncodedDirBytes();
  }

  lemma LongIsNoDevice(stem: Name)
    requires |stem| > 4
    ensures !IsDevice(stem)
  {}

  lemma EncodedDirIsSafe(c: Codec)
    requires c.Valid()
    ensures IsSafe(c, ENCODED_DIR) && IsPart(ENCODED_DIR)
  {
    hide IsDevice;
    var d := ENCODED_DIR;
    EncodedDirBytes();
    assert c.utf8(d);
    assert Stem(d) == [];
    EmptyIsNoDevice();
  }

  lemma EncodedDirBytes()
    ensures |ENCODED_DIR| == 15 && ENCODED_DIR[0] == DOT
    ensures forall i :: 0 < i < 15 ==> ENCODED_DIR[i] == 95 || 97 <= ENCODED_DIR[i] <= 122
  {}

  lemma EmptyIsNoDevice()
    ensures !IsDevice([])
  {}

  // ---------------------------------------------------------------- stored paths

  function StoredPart(c: Codec, part: Name): Path {
    if IsSafe(c, part) then [part] else [ENCODED_DIR, c.hash(part)]
  }

  function Stored(c: Codec, path: Path): Path {
    if path == [] then [] else StoredPart(c, path[0]) + Stored(c, path[1..])
  }

  lemma StoredOne(c: Codec, q: Path)
    requires q != []
    ensures Stored(c, q) == StoredPart(c, q[0]) + Stored(c, q[1..])
  {}

  lemma StoredNothing(c: Codec)
    ensures Stored(c, []) == []
  {}

  lemma {:induction false} StoredAppend(c: Codec, p: Path, q: Path)
    ensures Stored(c, p + q) == Stored(c, p) + Stored(c, q)
  {
    hide *;
    if p == [] {
      StoredNothing(c);
      assert p + q == q && [] + Stored(c, q) == Stored(c, q);
    } else {
      StoredAppend(c, p[1..], q);
      StoredOne(c, p);
      StoredOne(c, p + q);
      assert (p + q)[1..] == p[1..] + q && (p + q)[0] == p[0];
      Associative(StoredPart(c, p[0]), Stored(c, p[1..]), Stored(c, q));
    }
  }

  lemma Associative(a: Path, b: Path, d: Path)
    ensures a + (b + d) == a + b + d
  {}

  lemma {:induction false} StoredIsSafe(c: Codec, path: Path)
    requires c.Valid() && IsPath(path)
    ensures AllSafe(c, Stored(c, path)) && IsPath(Stored(c, path)) && |Stored(c, path)| >= |path|
  {
    hide IsSafe, IsPart, Codec.Valid;
    if path != [] {
      StoredIsSafe(c, path[1..]);
      HashIsSafe(c, path[0]);
      EncodedDirIsSafe(c);
      assert AllSafe(c, StoredPart(c, path[0])) && IsPath(StoredPart(c, path[0]));
    }
  }

  lemma {:induction false} StoredWhenSafe(c: Codec, path: Path)
    requires AllSafe(c, path)
    ensures Stored(c, path) == path
  {
    if path != [] {
      StoredWhenSafe(c, path[1..]);
    }
  }

  // A path the encoding can tell from its own output.
  predicate Proper(path: Path) {
    IsPath(path) && ENCODED_DIR !in path
  }

  // Such a path, of names at hand.
  predicate Known(c: Codec, path: Path) {
    Proper(path) && forall i :: 0 <= i < |path| ==> path[i] in c.names
  }

  // The first stored name says whether a name was encoded.
  lemma FirstStored(c: Codec, p: Path, q: Path)
    requires c.Valid() && c.Injective() && Known(c, p) && Known(c, q) && p != [] && q != []
    requires StoredPart(c, p[0]) <= Stored(c, q)
    ensures p[0] == q[0]
  {
    hide IsSafe, Stored, IsPart;
    HashIsSafe(c, p[0]);
    HashIsSafe(c, q[0]);
    var rest := Stored(c, q[1..]);
    assert Stored(c, q) == StoredPart(c, q[0]) + rest by { StoredOne(c, q); }
    assert StoredPart(c, p[0])[0] == StoredPart(c, q[0])[0];
    if !IsSafe(c, p[0]) && !IsSafe(c, q[0]) {
      assert StoredPart(c, p[0])[1] == Stored(c, q)[1] == StoredPart(c, q[0])[1];
    }
  }

  // One path lies below another exactly when it does as stored.
  lemma {:induction false} StoredKeepsPrefixes(c: Codec, p: Path, q: Path)
    requires c.Valid() && c.Injective() && Known(c, p) && Known(c, q)
    ensures Stored(c, p) <= Stored(c, q) <==> p <= q
  {
    hide IsSafe, StoredPart, IsPart;
    if p <= q {
      assert q == p + q[|p|..];
      StoredAppend(c, p, q[|p|..]);
    } else if Stored(c, p) <= Stored(c, q) {
      StoredPrefixInverts(c, p, q);
    }
  }

  lemma {:induction false} StoredPrefixInverts(c: Codec, p: Path, q: Path)
    requires c.Valid() && c.Injective() && Known(c, p) && Known(c, q) && Stored(c, p) <= Stored(c, q)
    ensures p <= q
  {
    hide IsSafe, IsPart, Stored, StoredPart, Codec.Valid, Codec.Injective;
    if p != [] {
      FirstStoredOf(c, p, q);
      FirstStored(c, p, q);
      StoredOne(c, p);
      StoredOne(c, q);
      PrefixBehind(StoredPart(c, p[0]), Stored(c, p[1..]), Stored(c, q[1..]));
      StoredPrefixInverts(c, p[1..], q[1..]);
      assert p == [p[0]] + p[1..] && q == [q[0]] + q[1..];
    }
  }

  lemma FirstStoredOf(c: Codec, p: Path, q: Path)
    requires p != [] && Stored(c, p) <= Stored(c, q)
    ensures q != [] && StoredPart(c, p[0]) <= Stored(c, q)
  {
    hide IsSafe;
    StoredOne(c, p);
    assert StoredPart(c, p[0]) <= Stored(c, p);
  }

  lemma PrefixBehind(a: Path, b: Path, d: Path)
    requires a + b <= a + d
    ensures b <= d
  {
    assert (a + b)[|a|..] == b && (a + d)[|a|..] == d;
  }

  // No two paths share a place.
  lemma StoredIsInjective(c: Codec, p: Path, q: Path)
    requires c.Valid() && c.Injective() && Known(c, p) && Known(c, q) && p != [] && q != []
    ensures Join(Stored(c, p)) == Join(Stored(c, q)) <==> p == q
  {
    hide Stored, Join, IsSafe, Codec.Valid, Codec.Injective;
    StoredIsSafe(c, p);
    StoredIsSafe(c, q);
    if Join(Stored(c, p)) == Join(Stored(c, q)) {
      SplitUndoesJoin(Stored(c, p));
      SplitUndoesJoin(Stored(c, q));
      StoredKeepsPrefixes(c, p, q);
      StoredKeepsPrefixes(c, q, p);
    }
  }

  // The condition cannot be dropped: every name that needs encoding shares its place with a path
  // through a directory that already bears the encoding's name.
  lemma EncodedDirCollides(c: Codec, name: Name)
    requires c.Valid() && IsPart(name) && !IsSafe(c, name)
    ensures IsPath([name]) && IsPath([ENCODED_DIR, c.hash(name)]) && [name] != [ENCODED_DIR, c.hash(name)]
    ensures Stored(c, [name]) == Stored(c, [ENCODED_DIR, c.hash(name)])
  {
    hide IsSafe, IsPart;
    HashIsSafe(c, name);
    EncodedDirIsSafe(c);
    assert Stored(c, []) == [];
    var two := [ENCODED_DIR, c.hash(name)];
    StoredWhenSafe(c, two);
    StoredOne(c, [name]);
  }

  // ---------------------------------------------------------------- an instance

  // A colon is hashed to zeros, everything else to ones.
  function ColonHash(n: Name): (h: Name)
    ensures |h| == 32 && forall i :: 0 <= i < 32 ==> h[i] == if n == [58] then 48 else 49
  {
    seq(32, _ => if n == [58] then 48 else 49)
  }

  // There are hashes and names as assumed, among them one that has to be encoded.
  lemma SomeCodec() returns (c: Codec)
    ensures c.Valid() && c.Injective() && c.names == {[58], [97]}
    ensures Known(c, [[58], [97], [58]]) && !IsSafe(c, [58]) && c.hash([58]) != c.hash([97])
  {
    hide *;
    c := Codec(_ => true, ColonHash, {[58], [97]});
    ColonHashes(c);
    ColonIsForbidden(c);
    ColonPath(c);
  }

  lemma ColonHashes(c: Codec)
    requires c == Codec(_ => true, ColonHash, {[58], [97]})
    ensures c.Valid() && c.Injective() && c.hash([58]) != c.hash([97])
  {
    hide ColonHash;
    assert c.hash([58]) != c.hash([97]) by { assert ColonHash([58])[0] != ColonHash([97])[0]; }
  }

  lemma ColonPath(c: Codec)
    requires c.names == {[58], [97]}
    ensures Known(c, [[58], [97], [58]])
  {
    var p: Path := [[58], [97], [58]];
    EncodedDirBytes();
    assert forall i :: 0 <= i < 3 ==> |p[i]| == 1 && IsPart(p[i]) && p[i] != ENCODED_DIR && p[i] in c.names;
  }

  lemma ColonIsForbidden(c: Codec)
    ensures !IsSafe(c, [58])
  {
    hide Stem, IsDevice;
    assert IsForbidden([58][0]);
  }
}
