// The command line that src/bin/auto_sync.rs hands to ShellExecuteW when it relaunches itself
// elevated, and the rules by which Windows takes it apart again.
module Quoting {
  function Backslashes(n: nat): (s: string)
    ensures |s| == n && forall i :: 0 <= i < n ==> s[i] == '\\'
  {
    seq(n, _ => '\\')
  }

  // What stands between the quotes, with `n` backslashes seen but not yet written.
  function Escape(arg: string, n: nat): string {
    if arg == "" then Backslashes(2 * n)
    else if arg[0] == '\\' then Escape(arg[1..], n + 1)
    else if arg[0] == '\"' then Backslashes(2 * n + 1) + "\"" + Escape(arg[1..], 0)
    else Backslashes(n) + [arg[0]] + Escape(arg[1..], 0)
  }

  function Quoted(arg: string): string {
    "\"" + Escape(arg, 0) + "\""
  }

  method QuoteArg(arg: string) returns (out: string)
    ensures out == Quoted(arg)
  {
    if arg == "" {
      return "\"\"";
    }
    out := "\"";
    var backslashes := 0;
    for i := 0 to |arg|
      invariant "\"" + Escape(arg, 0) == out + Escape(arg[i..], backslashes)
      invariant backslashes >= 0
    {
      ghost var rest := arg[i..];
      assert rest[0] == arg[i] && rest[1..] == arg[i + 1..];
      match arg[i] {
        case '\\' =>
          backslashes := backslashes + 1;
        case '\"' =>
          out := out + Backslashes(backslashes * 2 + 1);
          out := out + "\"";
          backslashes := 0;
        case ch =>
          out := out + Backslashes(backslashes);
          backslashes := 0;
          out := out + [ch];
      }
    }
    out := out + Backslashes(backslashes * 2);
    out := out + "\"";
  }

  // An argument without quotes and backslashes is only enclosed.
  lemma {:induction false} PlainEscape(arg: string)
    requires '\"' !in arg && '\\' !in arg
    ensures Escape(arg, 0) == arg && Quoted(arg) == "\"" + arg + "\""
  {
    if arg != "" {
      PlainEscape(arg[1..]);
      assert arg == [arg[0]] + arg[1..] && Backslashes(0) == "";
      assert Backslashes(0) + [arg[0]] + Escape(arg[1..], 0) == [arg[0]] + arg[1..];
    } else {
      assert Backslashes(0) == "";
    }
  }

  lemma {:induction false} EscapeRun(n: nat, seen: nat, rest: string)
    ensures Escape(Backslashes(n) + rest, seen) == Escape(rest, seen + n)
  {
    if n == 0 {
      assert Backslashes(0) + rest == rest;
    } else {
      EscapeRun(n - 1, seen + 1, rest);
      assert (Backslashes(n) + rest)[1..] == Backslashes(n - 1) + rest;
    }
  }

  // Backslashes are doubled before a quote, which gets one more, and at the end; nowhere else.
  lemma EscapeRules(n: nat, rest: string)
    ensures Escape(Backslashes(n), 0) == Backslashes(2 * n)
    ensures Escape(Backslashes(n) + ("\"" + rest), 0) == Backslashes(2 * n + 1) + "\"" + Escape(rest, 0)
    ensures rest != "" && rest[0] != '\"' && rest[0] != '\\' ==>
      Escape(Backslashes(n) + rest, 0) == Backslashes(n) + [rest[0]] + Escape(rest[1..], 0)
  {
    EscapeRun(n, 0, "");
    assert Backslashes(n) + "" == Backslashes(n);
    EscapeRun(n, 0, "\"" + rest);
    assert ("\"" + rest)[1..] == rest;
    EscapeRun(n, 0, rest);
  }

  function CommandLine(args: seq<string>): string {
    if args == [] then ""
    else if |args| == 1 then Quoted(args[0])
    else CommandLine(args[..|args| - 1]) + " " + Quoted(args[|args| - 1])
  }

  lemma CommandLineMore(args: seq<string>, last: string)
    ensures CommandLine(args + [last]) == if args == [] then Quoted(last) else CommandLine(args) + " " + Quoted(last)
  {
    hide Quoted;
    assert (args + [last])[..|args|] == args;
  }

  // Behind arguments come others with one blank between.
  lemma {:induction false} CommandLineOfBoth(xs: seq<string>, ys: seq<string>)
    requires xs != [] && ys != []
    ensures CommandLine(xs + ys) == CommandLine(xs) + [' '] + CommandLine(ys)
    decreases |ys|
  {
    hide *;
    var front, last := ys[..|ys| - 1], ys[|ys| - 1];
    assert xs + ys == (xs + front) + [last] && ys == front + [last];
    CommandLineMore(xs + front, last);
    CommandLineMore(front, last);
    if front == [] {
      assert xs + front == xs;
    } else {
      CommandLineOfBoth(xs, front);
    }
  }

  method JoinCommandLine(args: seq<string>) returns (line: string)
    ensures line == CommandLine(args)
  {
    line := "";
    for i := 0 to |args|
      invariant line == CommandLine(args[..i])
    {
      var quoted := QuoteArg(args[i]);
      assert args[..i + 1][..i] == args[..i];
      line := if i == 0 then quoted else line + " " + quoted;
    }
    assert args[..|args|] == args;
  }

  // ---------------------------------------------------------------- taking it apart

  // How a second quote right behind a closing one is read: by the documented rules it opens a
  // quoted part again; C run-time libraries make it a literal quote and stay inside or leave.
  datatype DoubledQuote = OpensAgain | LiteralInside | LiteralOutside

  predicate IsBlank(ch: char) { ch == ' ' || ch == '\t' }

  function LeadingBackslashes(s: string): (n: nat)
    ensures n <= |s| && (forall i :: 0 <= i < n ==> s[i] == '\\') && (n < |s| ==> s[n] != '\\')
  {
    if s == "" || s[0] != '\\' then 0 else 1 + LeadingBackslashes(s[1..])
  }

  function After(text: string, scanned: (string, string)): (string, string) {
    (text + scanned.0, scanned.1)
  }

  // The rest of the argument being read, and the rest of the line. 2n backslashes before a quote
  // stand for n, and the quote opens or closes; 2n + 1 stand for n and a literal quote; other
  // backslashes stand for themselves; a blank outside quotes ends the argument.
  function Scan(mode: DoubledQuote, s: string, quoted: bool): (r: (string, string))
    ensures |r.1| <= |s|
    decreases |s|, if LeadingBackslashes(s) > 0 then 1 else 0
  {
    var n := LeadingBackslashes(s);
    var t := s[n..];
    if t == "" then (s, "")
    else if t[0] == '\"' then
      if n % 2 == 1 then After(Backslashes(n / 2) + "\"", Scan(mode, t[1..], quoted))
      else if quoted && mode != OpensAgain && |t| > 1 && t[1] == '\"' then
        After(Backslashes(n / 2) + "\"", Scan(mode, t[2..], mode == LiteralInside))
      else After(Backslashes(n / 2), Scan(mode, t[1..], !quoted))
    else if n > 0 then After(s[..n], Scan(mode, t, quoted))
    else if IsBlank(t[0]) && !quoted then ("", s)
    else After([t[0]], Scan(mode, t[1..], quoted))
  }

  function SkipBlanks(s: string): (r: string)
    ensures |r| <= |s| && (r != "" ==> !IsBlank(r[0]))
  {
    if s != "" && IsBlank(s[0]) then SkipBlanks(s[1..]) else s
  }

  function Parse(mode: DoubledQuote, line: string): seq<string>
    decreases |line|
  {
    var s := SkipBlanks(line);
    if s == "" then [] else
      ScanTakesSome(mode, s);
      var (arg, rest) := Scan(mode, s, false);
      [arg] + Parse(mode, rest)
  }

  lemma ScanTakesSome(mode: DoubledQuote, s: string)
    requires s != "" && !IsBlank(s[0])
    ensures |Scan(mode, s, false).1| < |s|
  {}

  // ---------------------------------------------------------------- the round trip

  lemma LeadingExactly(n: nat, s: string)
    requires s != "" && s[0] != '\\'
    ensures LeadingBackslashes(Backslashes(n) + s) == n && (Backslashes(n) + s)[n..] == s
  {
    hide LeadingBackslashes;
    var all := Backslashes(n) + s;
    assert all[..n] == Backslashes(n) && all[n] == s[0];
    assert forall i :: 0 <= i < n ==> all[i] == Backslashes(n)[i];
  }

  lemma ScanQuote(mode: DoubledQuote, n: nat, after: string, quoted: bool)
    ensures n % 2 == 1 ==>
      Scan(mode, Backslashes(n) + ("\"" + after), quoted) == After(Backslashes(n / 2) + "\"", Scan(mode, after, quoted))
    ensures n % 2 == 0 && (after == "" || after[0] != '\"') ==>
      Scan(mode, Backslashes(n) + ("\"" + after), quoted) == After(Backslashes(n / 2), Scan(mode, after, !quoted))
  {
    hide LeadingBackslashes, After;
    LeadingExactly(n, "\"" + after);
    assert ("\"" + after)[1..] == after;
    assert |after| > 0 ==> ("\"" + after)[1] == after[0];
  }

  lemma ScanPlain(mode: DoubledQuote, ch: char, after: string)
    requires ch != '\\' && ch != '\"'
    ensures Scan(mode, [ch] + after, true) == After([ch], Scan(mode, after, true))
  {
    hide LeadingBackslashes;
    assert ([ch] + after)[1..] == after;
    LeadingNone([ch] + after);
  }

  lemma LeadingNone(s: string)
    requires s == "" || s[0] != '\\'
    ensures LeadingBackslashes(s) == 0
  {}

  lemma ScanOrdinary(mode: DoubledQuote, n: nat, ch: char, after: string)
    requires ch != '\\' && ch != '\"'
    ensures Scan(mode, Backslashes(n) + ([ch] + after), true) == After(Backslashes(n), After([ch], Scan(mode,
      after, true)))
  {
    hide LeadingBackslashes, Backslashes, After;
    var tail := [ch] + after;
    var text := Backslashes(n) + tail;
    LeadingExactly(n, tail);
    ScanPlain(mode, ch, after);
    if n > 0 {
      assert text[..n] == Backslashes(n);
    } else {
      assert text == tail;
      AfterNothing(Backslashes(n), After([ch], Scan(mode, after, true)));
    }
  }

  lemma AfterNothing(text: string, scanned: (string, string))
    requires text == ""
    ensures After(text, scanned) == scanned
  {
    assert text + scanned.0 == scanned.0;
  }

  lemma ScanAtEnd(mode: DoubledQuote, rest: string)
    requires rest == "" || rest[0] == ' ' || rest[0] == '\t'
    ensures Scan(mode, rest, false) == ("", rest)
  {
    LeadingNone(rest);
  }

  // An escaped argument, its closing quote and what follows.
  function Closed(arg: string, n: nat, rest: string): string {
    Escape(arg, n) + ("\"" + rest)
  }

  lemma ClosedShape(arg: string, n: nat, rest: string)
    ensures Closed(arg, n, rest) ==
      if arg == "" then Backslashes(2 * n) + ("\"" + rest)
      else if arg[0] == '\\' then Closed(arg[1..], n + 1, rest)
      else if arg[0] == '\"' then Backslashes(2 * n + 1) + ("\"" + Closed(arg[1..], 0, rest))
      else Backslashes(n) + ([arg[0]] + Closed(arg[1..], 0, rest))
  {
    hide Backslashes;
  }

  lemma ArgShape(arg: string, n: nat)
    requires arg != ""
    ensures arg[0] == '\\' ==> Backslashes(n + 1) + arg[1..] == Backslashes(n) + arg
    ensures Backslashes(n) + ([arg[0]] + (Backslashes(0) + arg[1..])) == Backslashes(n) + arg
    ensures Backslashes(n) + "\"" + (Backslashes(0) + arg[1..]) == Backslashes(n) + ("\"" + arg[1..])
  {
    hide Backslashes;
    assert [arg[0]] + arg[1..] == arg;
    assert Backslashes(n + 1) == Backslashes(n) + "\\";
  }

  // Behind the opening quote, the scanner reads an escaped argument back, to its closing quote.
  lemma {:induction false} ScanUndoesEscape(mode: DoubledQuote, arg: string, n: nat, rest: string)
    requires rest == "" || rest[0] == ' ' || rest[0] == '\t'
    ensures Scan(mode, Closed(arg, n, rest), true) == (Backslashes(n) + arg, rest)
    decreases |arg|
  {
    hide LeadingBackslashes, Scan, Escape, Closed, Backslashes;
    ClosedShape(arg, n, rest);
    if arg == "" {
      ScanQuote(mode, 2 * n, rest, true);
      ScanAtEnd(mode, rest);
    } else {
      ArgShape(arg, n);
      if arg[0] == '\\' {
        ScanUndoesEscape(mode, arg[1..], n + 1, rest);
      } else {
        var more := Closed(arg[1..], 0, rest);
        ScanUndoesEscape(mode, arg[1..], 0, rest);
        if arg[0] == '\"' {
          ScanQuote(mode, 2 * n + 1, more, true);
          assert "\"" + arg[1..] == arg;
        } else {
          ScanOrdinary(mode, n, arg[0], more);
        }
      }
    }
  }

  lemma ScanUndoesQuote(mode: DoubledQuote, arg: string, rest: string)
    requires rest == "" || rest[0] == ' ' || rest[0] == '\t'
    ensures Scan(mode, Quoted(arg) + rest, false) == (arg, rest)
  {
    hide Scan, Escape, LeadingBackslashes, Backslashes;
    ScanUndoesEscape(mode, arg, 0, rest);
    ScanQuoteOpens(mode, Closed(arg, 0, rest));
    assert Quoted(arg) + rest == "\"" + Closed(arg, 0, rest);
    assert Backslashes(0) + arg == arg;
  }

  lemma ScanQuoteOpens(mode: DoubledQuote, after: string)
    ensures Scan(mode, "\"" + after, false) == Scan(mode, after, true)
  {
    hide LeadingBackslashes;
    LeadingNone("\"" + after);
    assert ("\"" + after)[1..] == after;
    assert Backslashes(0) + Scan(mode, after, true).0 == Scan(mode, after, true).0;
  }

  lemma ParseOne(mode: DoubledQuote, arg: string, rest: string)
    requires rest == "" || rest[0] == ' ' || rest[0] == '\t'
    ensures Parse(mode, Quoted(arg) + rest) == [arg] + Parse(mode, rest)
  {
    hide Scan, Escape;
    ScanUndoesQuote(mode, arg, rest);
  }

  lemma ParseBlank(mode: DoubledQuote, line: string)
    ensures Parse(mode, " " + line) == Parse(mode, line)
  {
    hide Scan;
    assert (" " + line)[1..] == line;
  }

  // Behind the arguments of a command line, others may follow.
  lemma {:induction false} ParsePrefix(mode: DoubledQuote, args: seq<string>, rest: string)
    requires args != [] && (rest == "" || rest[0] == ' ' || rest[0] == '\t')
    ensures Parse(mode, CommandLine(args) + rest) == args + Parse(mode, rest)
    decreases |args|
  {
    hide Quoted, Parse;
    var last := args[|args| - 1];
    ParseOne(mode, last, rest);
    if |args| > 1 {
      var front, more := args[..|args| - 1], Quoted(last) + rest;
      ParsePrefix(mode, front, " " + more);
      ParseBlank(mode, more);
      assert CommandLine(args) + rest == CommandLine(front) + (" " + more);
      assert front + ([last] + Parse(mode, rest)) == args + Parse(mode, rest);
    }
  }

  // Windows reads back exactly the arguments that were joined: empty ones, blanks, quotes,
  // trailing backslashes and all, under every reading of doubled quotes.
  lemma ParseUndoesJoin(mode: DoubledQuote, args: seq<string>)
    ensures Parse(mode, CommandLine(args)) == args
  {
    if args != [] {
      ParsePrefix(mode, args, "");
      assert CommandLine(args) + "" == CommandLine(args) && args + [] == args;
    }
  }
}
