/** Quoting of command-line arguments (patcher/dialogs/protocol.h) against the rules by which
    Windows programs split a command line. */
module CommandLine {
  import opened Sequences

  function Slashes(n: nat): (s: string)
    ensures |s| == n && forall i :: 0 <= i < n ==> s[i] == '\\'
  {
    seq(n, _ => '\\')
  }

  // ----- quoting --------------------------------------------------------------

  /** The quoted form of s after `pending` backslashes that are not written yet. */
  function Escaped(s: string, pending: nat): string {
    if s == "" then Slashes(2 * pending)
    else if s[0] == '\\' then Escaped(s[1..], pending + 1)
    else if s[0] == '\"' then Slashes(2 * pending + 1) + "\"" + Escaped(s[1..], 0)
    else Slashes(pending) + [s[0]] + Escaped(s[1..], 0)
  }

  function Quoted(s: string): string {
    "\"" + Escaped(s, 0) + "\""
  }

  method Quote(s: string) returns (out: string)
    ensures out == Quoted(s)
  {
    out := "\"";
    var slashes := 0;
    for i := 0 to |s|
      invariant out + Escaped(s[i..], slashes) + "\"" == Quoted(s)
    {
      var ch := s[i];
      assert s[i..][1..] == s[i + 1..];
      if ch == '\\' {
        slashes := slashes + 1;
        continue;
      }
      if ch == '\"' {
        out := out + Slashes(slashes * 2 + 1);
        out := out + [ch];
      } else {
        out := out + Slashes(slashes);
        out := out + [ch];
      }
      slashes := 0;
    }
    out := out + Slashes(slashes * 2);
    out := out + "\"";
  }

  /** The launcher's command line: every argument quoted, separated by single spaces. */
  function Joined(args: seq<string>): string {
    if args == [] then ""
    else if |args| == 1 then Quoted(args[0])
    else Quoted(args[0]) + " " + Joined(args[1..])
  }

  /** The arguments from the i-th on, each after a space. */
  function Following(args: seq<string>, i: nat): string
    requires i <= |args|
  {
    if i == |args| then "" else " " + Joined(args[i..])
  }

  lemma FollowingStep(args: seq<string>, i: nat)
    requires i < |args|
    ensures Following(args, i) == " " + Quoted(args[i]) + Following(args, i + 1)
  {
    assert args[i..][1..] == args[i + 1..];
    if i + 1 < |args| {
      assert " " + (Quoted(args[i]) + " " + Joined(args[i + 1..])) == " " + Quoted(args[i]) + (" " + Joined(args[i + 1..]));
    }
  }

  method BuildCommand(args: seq<string>) returns (command: string)
    requires args != []
    ensures command == Joined(args)
  {
    command := Quote(args[0]);
    FollowingStep(args, 0);
    assert args[0..] == args;
    assert " " + Joined(args) == " " + (Quoted(args[0]) + Following(args, 1));
    assert Joined(args) == (" " + Joined(args))[1..];
    for i := 1 to |args|
      invariant command + Following(args, i) == Joined(args)
    {
      var next := Quote(args[i]);
      FollowingStep(args, i);
      assert command + (" " + next + Following(args, i + 1)) == command + " " + next + Following(args, i + 1);
      command := command + " " + next;
    }
  }

  // ----- splitting ------------------------------------------------------------

  function LeadingSlashes(s: string): (n: nat)
    ensures n <= |s| && (n < |s| ==> s[n] != '\\')
    ensures forall i :: 0 <= i < n ==> s[i] == '\\'
  {
    if s == "" || s[0] != '\\' then 0 else 1 + LeadingSlashes(s[1..])
  }

  predicate Blank(c: char) {
    c == ' ' || c == '\t'
  }

  datatype Argument = NoArgument | Begun(text: string)
  {
    function Plus(t: string): Argument {
      Begun(if Begun? then text + t else t)
    }

    function Ended(): seq<string> {
      if Begun? then [text] else []
    }
  }

  /** One turn of the splitter: how many characters it uses, whether it is inside quotes
      afterwards, the argument begun, and the arguments completed. */
  datatype Turn = Turn(used: nat, quoted: bool, current: Argument, completed: seq<string>)

  /** The documented rules: blanks outside quotes separate arguments; 2n backslashes before a
      quote mean n backslashes and a quote that opens or closes; 2n+1 mean n backslashes and a
      literal quote; other backslashes mean themselves; inside quotes a doubled quote is a
      literal quote. */
  function OneTurn(s: string, quoted: bool, current: Argument): (r: Turn)
    requires s != ""
    ensures 0 < r.used <= |s|
  {
    var n := LeadingSlashes(s);
    if n > 0 then
      if n < |s| && s[n] == '\"' then
        if n % 2 == 1 then Turn(n + 1, quoted, current.Plus(Slashes(n / 2) + "\""), [])
        else Turn(n, quoted, current.Plus(Slashes(n / 2)), [])
      else Turn(n, quoted, current.Plus(Slashes(n)), [])
    else if s[0] == '\"' then
      if quoted && |s| > 1 && s[1] == '\"' then Turn(2, quoted, current.Plus("\""), [])
      else Turn(1, !quoted, current.Plus(""), [])
    else if Blank(s[0]) && !quoted then Turn(1, false, NoArgument, current.Ended())
    else Turn(1, quoted, current.Plus([s[0]]), [])
  }

  function Split(s: string, quoted: bool, current: Argument): seq<string>
    decreases |s|
  {
    if s == "" then current.Ended()
    else
      var r := OneTurn(s, quoted, current);
      r.completed + Split(s[r.used..], r.quoted, r.current)
  }

  /** The program name is split off by a simpler rule: a quoted name ends at the next quote,
      and backslashes mean themselves. */
  function ProgramName(s: string): (string, string) {
    if s != "" && s[0] == '\"' then
      var end := IndexOf(s[1..], '\"', 0);
      (s[1..1 + end], if 1 + end < |s| then s[2 + end..] else "")
    else
      var end := Min(IndexOf(s, ' ', 0), IndexOf(s, '\t', 0));
      (s[..end], s[end..])
  }

  /** A text that the escaping leaves as it is. */
  predicate PlainName(name: string) {
    '\"' !in name && (name == "" || name[|name| - 1] != '\\')
  }

  /** The same for the rest of a text, after some backslashes. */
  predicate PlainAfter(pending: nat, s: string) {
    PlainName(s) && (s == "" ==> pending == 0)
  }

  lemma PlainStep(pending: nat, s: string)
    requires s != ""
    ensures s[0] == '\"' ==> !PlainAfter(pending, s)
    ensures s[0] == '\\' ==> (PlainAfter(pending, s) <==> PlainAfter(pending + 1, s[1..]))
    ensures s[0] != '\"' && s[0] != '\\' ==> (PlainAfter(pending, s) <==> PlainAfter(0, s[1..]))
  {
    assert '\"' in s <==> s[0] == '\"' || '\"' in s[1..];
  }

  // ----- the round trip -------------------------------------------------------

  lemma {:induction false} LeadingRun(n: nat, t: string)
    requires t == "" || t[0] != '\\'
    ensures LeadingSlashes(Slashes(n) + t) == n
    ensures (Slashes(n) + t)[n..] == t
  {
    if n == 0 {
      assert Slashes(n) + t == t;
    } else {
      assert (Slashes(n) + t)[1..] == Slashes(n - 1) + t;
      LeadingRun(n - 1, t);
    }
  }

  /** What a run of backslashes means, in front of anything else. */
  lemma SlashTurn(n: nat, t: string, quoted: bool, current: Argument)
    requires n > 0 && (t == "" || t[0] != '\\')
    ensures OneTurn(Slashes(n) + t, quoted, current) ==
            if t == "" || t[0] != '\"' then Turn(n, quoted, current.Plus(Slashes(n)), [])
            else if n % 2 == 1 then Turn(n + 1, quoted, current.Plus(Slashes(n / 2) + "\""), [])
            else Turn(n, quoted, current.Plus(Slashes(n / 2)), [])
  {
    hide LeadingSlashes;
    LeadingRun(n, t);
    if t != "" {
      assert (Slashes(n) + t)[n] == t[0];
    }
  }

  lemma AfterTurn(s: string, quoted: bool, current: Argument, r: Turn)
    requires s != "" && OneTurn(s, quoted, current) == r
    ensures Split(s, quoted, current) == r.completed + Split(s[r.used..], r.quoted, r.current)
  {
    hide OneTurn;
  }

  /** Backslashes that do not stand before a quote are taken literally. */
  lemma SlashesBefore(n: nat, t: string, quoted: bool, current: string)
    requires t != "" && t[0] != '\\' && t[0] != '\"'
    ensures Split(Slashes(n) + t, quoted, Begun(current)) == Split(t, quoted, Begun(current + Slashes(n)))
  {
    hide Split, OneTurn, LeadingSlashes;
    if n == 0 {
      assert Slashes(n) + t == t && current + Slashes(n) == current;
    } else {
      LeadingRun(n, t);
      SlashTurn(n, t, quoted, Begun(current));
      AfterTurn(Slashes(n) + t, quoted, Begun(current), Turn(n, quoted, Begun(current + Slashes(n)), []));
    }
  }

  /** Backslashes before a quote count half, and an odd one makes the quote literal. */
  lemma EvenSlashesBeforeQuote(n: nat, half: nat, t: string, quoted: bool, current: string)
    requires n == 2 * half
    ensures Split(Slashes(n) + ("\"" + t), quoted, Begun(current)) == Split("\"" + t, quoted, Begun(current + Slashes(half)))
  {
    hide Split, OneTurn, LeadingSlashes;
    var q := "\"" + t;
    if n == 0 {
      assert Slashes(n) + q == q && current + Slashes(0) == current;
    } else {
      LeadingRun(n, q);
      SlashTurn(n, q, quoted, Begun(current));
      assert n / 2 == half;
      AfterTurn(Slashes(n) + q, quoted, Begun(current), Turn(n, quoted, Begun(current + Slashes(half)), []));
    }
  }

  lemma PastRun(n: nat, c: char, t: string)
    ensures (Slashes(n) + ([c] + t))[n + 1..] == t
  {
    SameAfter(Slashes(n) + [c], t, t);
    Assoc(Slashes(n), [c], t);
  }

  lemma OddSlashesBeforeQuote(n: nat, half: nat, t: string, quoted: bool, current: string)
    requires n == 2 * half + 1
    ensures Split(Slashes(n) + ("\"" + t), quoted, Begun(current)) == Split(t, quoted, Begun(current + Slashes(half) + "\""))
  {
    hide Split, OneTurn, LeadingSlashes;
    var q := "\"" + t;
    PastRun(n, '\"', t);
    SlashTurn(n, q, quoted, Begun(current));
    assert n / 2 == half && n % 2 == 1;
    Assoc(current, Slashes(half), "\"");
    AfterTurn(Slashes(n) + q, quoted, Begun(current), Turn(n + 1, quoted, Begun(current + Slashes(half) + "\""), []));
  }

  /** One character that is no backslash. */
  lemma CharTurn(c: char, t: string, quoted: bool, current: Argument)
    requires c != '\\'
    ensures OneTurn([c] + t, quoted, current) ==
            if c == '\"' then
              if quoted && t != "" && t[0] == '\"' then Turn(2, quoted, current.Plus("\""), [])
              else Turn(1, !quoted, current.Plus(""), [])
            else if Blank(c) && !quoted then Turn(1, false, NoArgument, current.Ended())
            else Turn(1, quoted, current.Plus([c]), [])
  {
    assert t != "" ==> ([c] + t)[1] == t[0];
  }

  lemma AfterChar(c: char, t: string, quoted: bool, current: Argument, r: Turn)
    requires OneTurn([c] + t, quoted, current) == r && r.used == 1
    ensures Split([c] + t, quoted, current) == r.completed + Split(t, r.quoted, r.current)
  {
    hide Split, OneTurn;
    AfterTurn([c] + t, quoted, current, r);
    assert ([c] + t)[1..] == t;
  }

  lemma ClosingQuote(rest: string, current: string)
    requires rest == "" || Blank(rest[0])
    ensures Split("\"" + rest, true, Begun(current)) == Split(rest, false, Begun(current))
  {
    hide Split, OneTurn;
    CharTurn('\"', rest, true, Begun(current));
    assert current + "" == current;
    AfterChar('\"', rest, true, Begun(current), Turn(1, false, Begun(current), []));
  }

  lemma OrdinaryAfterSlashes(n: nat, c: char, t: string, current: string)
    requires c != '\\' && c != '\"'
    ensures Split(Slashes(n) + ([c] + t), true, Begun(current)) == Split(t, true, Begun(current + Slashes(n) + [c]))
  {
    hide Split, OneTurn;
    SlashesBefore(n, [c] + t, true, current);
    CharTurn(c, t, true, Begun(current + Slashes(n)));
    AfterChar(c, t, true, Begun(current + Slashes(n)), Turn(1, true, Begun(current + Slashes(n) + [c]), []));
  }

  /** How the escaped text of a non-empty argument starts, before its closing quote. */
  lemma EscapedQuote(s: string, pending: nat, rest: string)
    requires s != "" && s[0] == '\"'
    ensures Escaped(s, pending) + "\"" + rest == Slashes(2 * pending + 1) + ("\"" + (Escaped(s[1..], 0) + "\"" + rest))
  {
    var e := Escaped(s[1..], 0);
    assert Slashes(2 * pending + 1) + "\"" + e + "\"" + rest == Slashes(2 * pending + 1) + ("\"" + (e + "\"" + rest));
  }

  lemma EscapedOrdinary(s: string, pending: nat, rest: string)
    requires s != "" && s[0] != '\\' && s[0] != '\"'
    ensures Escaped(s, pending) + "\"" + rest == Slashes(pending) + ([s[0]] + (Escaped(s[1..], 0) + "\"" + rest))
  {
    var e := Escaped(s[1..], 0);
    assert Slashes(pending) + [s[0]] + e + "\"" + rest == Slashes(pending) + ([s[0]] + (e + "\"" + rest));
  }

  lemma SlashMoves(s: string, pending: nat, current: string)
    requires s != "" && s[0] == '\\'
    ensures current + Slashes(pending + 1) + s[1..] == current + Slashes(pending) + s
  {
    assert Slashes(pending + 1) + s[1..] == Slashes(pending) + s;
    Assoc(current, Slashes(pending + 1), s[1..]);
    Assoc(current, Slashes(pending), s);
  }

  lemma CharMoves(s: string, x: string)
    requires s != ""
    ensures x + [s[0]] + Slashes(0) + s[1..] == x + s
  {
  }

  /** Inside its quotes an escaped text is read back exactly, up to and with the closing quote. */
  lemma {:induction false} EscapedIsReadBack(s: string, pending: nat, current: string, rest: string)
    requires rest == "" || Blank(rest[0])
    ensures Split(Escaped(s, pending) + "\"" + rest, true, Begun(current)) ==
            Split(rest, false, Begun(current + Slashes(pending) + s))
    decreases |s|
  {
    hide Split, OneTurn;
    if s == "" {
      assert Escaped(s, pending) + "\"" + rest == Slashes(2 * pending) + ("\"" + rest);
      EvenSlashesBeforeQuote(2 * pending, pending, rest, true, current);
      ClosingQuote(rest, current + Slashes(pending));
      assert current + Slashes(pending) + s == current + Slashes(pending);
    } else if s[0] == '\\' {
      EscapedIsReadBack(s[1..], pending + 1, current, rest);
      SlashMoves(s, pending, current);
    } else {
      EscapedIsReadBack(s[1..], 0, current + Slashes(pending) + [s[0]], rest);
      CharMoves(s, current + Slashes(pending));
      if s[0] == '\"' {
        EscapedQuote(s, pending, rest);
        OddSlashesBeforeQuote(2 * pending + 1, pending, Escaped(s[1..], 0) + "\"" + rest, true, current);
      } else {
        EscapedOrdinary(s, pending, rest);
        OrdinaryAfterSlashes(pending, s[0], Escaped(s[1..], 0) + "\"" + rest, current);
      }
    }
  }

  lemma FirstArgument(arg: string, rest: string)
    requires rest == "" || Blank(rest[0])
    ensures Split(Quoted(arg) + rest, false, NoArgument) == Split(rest, false, Begun(arg))
  {
    hide Split, OneTurn, Escaped;
    var after := Escaped(arg, 0) + "\"" + rest;
    QuotedThen(arg, rest);
    CharTurn('\"', after, false, NoArgument);
    AfterChar('\"', after, false, NoArgument, Turn(1, true, Begun(""), []));
    EscapedIsReadBack(arg, 0, "", rest);
    assert "" + Slashes(0) + arg == arg;
  }

  lemma QuotedThen(arg: string, rest: string)
    ensures Quoted(arg) + rest == "\"" + (Escaped(arg, 0) + "\"" + rest)
  {
    hide Escaped;
    var e := Escaped(arg, 0);
    Assoc("\"", e, "\"");
    Assoc("\"", e + "\"", rest);
  }

  lemma NextArgument(arg: Argument, more: string)
    ensures Split(" " + more, false, arg) == arg.Ended() + Split(more, false, NoArgument)
  {
    hide Split, OneTurn;
    CharTurn(' ', more, false, arg);
    AfterChar(' ', more, false, arg, Turn(1, false, NoArgument, arg.Ended()));
  }

  lemma NothingLeft(arg: string)
    ensures Split("", false, Begun(arg)) == [arg]
  {
  }

  lemma JoinedStarts(args: seq<string>)
    requires args != []
    ensures Joined(args) == Quoted(args[0]) + Following(args, 1)
  {
    hide Quoted;
    if |args| == 1 {
      assert Quoted(args[0]) + "" == Quoted(args[0]);
    } else {
      Assoc(Quoted(args[0]), " ", Joined(args[1..]));
    }
  }

  /** Splitting the joined line gives back every argument list exactly, whatever backslashes,
      quotes and blanks the arguments contain. */
  lemma {:induction false} SplitInvertsJoin(args: seq<string>)
    ensures Split(Joined(args), false, NoArgument) == args
  {
    if args != [] {
      hide Split, OneTurn, Quoted, Joined;
      JoinedStarts(args);
      FirstArgument(args[0], Following(args, 1));
      if |args| == 1 {
        NothingLeft(args[0]);
      } else {
        NextArgument(Begun(args[0]), Joined(args[1..]));
        SplitInvertsJoin(args[1..]);
      }
    }
  }

  /** What follows the program name splits into the arguments behind it. */
  lemma ArgumentsFollow(name: string, args: seq<string>)
    ensures Split(Following([name] + args, 1), false, NoArgument) == args
  {
    hide OneTurn, Joined;
    assert ([name] + args)[1..] == args;
    if args != [] {
      NextArgument(NoArgument, Joined(args));
      SplitInvertsJoin(args);
    }
  }

  /** The first argument is read by the rule for program names. It comes back exactly when it
      holds no quote and does not end in a backslash. */
  lemma ProgramNameComesBackExactly(name: string, args: seq<string>)
    ensures ProgramName(Joined([name] + args)).0 == name <==> PlainName(name)
  {
    hide Joined, Escaped, Following;
    var rest := Following([name] + args, 1);
    var after := Escaped(name, 0) + "\"" + rest;
    JoinedStarts([name] + args);
    QuotedThen(name, rest);
    WithoutFirst('\"', after);
    NameAndRest("\"" + after, after);
    FirstQuoteOfEscaped(name, 0, rest);
    assert Slashes(0) + name == name;
  }

  lemma QuotedName(s: string)
    requires s != "" && s[0] == '\"'
    ensures var end := IndexOf(s[1..], '\"', 0);
            ProgramName(s) == (s[1..1 + end], if 1 + end < |s| then s[2 + end..|s|] else "")
  {
    hide IndexOf;
    assert forall k :: 0 <= k <= |s| ==> s[k..] == s[k..|s|];
  }

  lemma BeforeQuoteIs(s: string)
    ensures BeforeQuote(s) == s[0..IndexOf(s, '\"', 0)]
  {
    hide IndexOf;
  }

  lemma NameAndRest(s: string, after: string)
    requires s != "" && s[0] == '\"' && s[1..] == after
    ensures var end := IndexOf(after, '\"', 0);
            ProgramName(s) == (BeforeQuote(after), if end < |after| then after[end + 1..|after|] else "")
  {
    hide *;
    QuotedName(s);
    BeforeQuoteIs(after);
    CutAt(s, after, IndexOf(after, '\"', 0));
  }

  lemma CutAt(s: string, after: string, end: nat)
    requires s != "" && s[1..] == after && end <= |after|
    ensures s[1..1 + end] == after[0..end]
    ensures end < |after| ==> s[2 + end..|s|] == after[end + 1..|after|]
  {
    SliceOfDrop(s, 1, 0, end);
    if end < |after| {
      SliceOfDrop(s, 1, end + 1, |after|);
    }
  }

  lemma WithoutFirst(c: char, t: string)
    ensures ([c] + t)[0] == c && ([c] + t)[1..] == t
  {
  }

  lemma {:induction false} PlainIsNotEscaped(s: string, pending: nat)
    requires PlainAfter(pending, s)
    ensures Escaped(s, pending) == Slashes(pending) + s
    decreases |s|
  {
    if s != "" {
      PlainStep(pending, s);
      hide PlainAfter;
      if s[0] == '\\' {
        PlainIsNotEscaped(s[1..], pending + 1);
        SlashMoves(s, pending, "");
      } else {
        PlainIsNotEscaped(s[1..], 0);
        assert Slashes(0) + s[1..] == s[1..];
        Assoc(Slashes(pending), [s[0]], s[1..]);
        assert [s[0]] + s[1..] == s;
      }
    }
  }

  /** The whole line comes back, the name by its own rule and then the arguments, exactly when
      the name holds no quote and does not end in a backslash. */
  lemma CommandLineComesBackExactly(name: string, args: seq<string>)
    ensures var (first, rest) := ProgramName(Joined([name] + args));
            (first == name && Split(rest, false, NoArgument) == args) <==> PlainName(name)
  {
    hide Joined, Escaped, Following, Split;
    ProgramNameComesBackExactly(name, args);
    if PlainName(name) {
      var rest := Following([name] + args, 1);
      JoinedStarts([name] + args);
      QuotedThen(name, rest);
      PlainIsNotEscaped(name, 0);
      assert Slashes(0) + name == name;
      Assoc(name, "\"", rest);
      WithoutFirst('\"', name + ("\"" + rest));
      NameAndRest("\"" + (name + ("\"" + rest)), name + ("\"" + rest));
      FirstQuoteAfter(name, "\"" + rest);
      assert IndexOf("\"" + rest, '\"', 0) == 0;
      PastName(name, rest);
      ArgumentsFollow(name, args);
    }
  }

  lemma PastName(name: string, rest: string)
    ensures var s := name + ("\"" + rest); s[|name| + 1..|s|] == rest
  {
  }

  lemma FirstQuoteAfter(x: string, t: string)
    requires '\"' !in x
    ensures IndexOf(x + t, '\"', 0) == |x| + IndexOf(t, '\"', 0)
    ensures (x + t)[..|x| + IndexOf(t, '\"', 0)] == x + t[..IndexOf(t, '\"', 0)]
  {
    var j := IndexOf(t, '\"', 0);
    TakeAfter(x, t, j);
    assert t[0..j] == t[..j];
    IndexOfIs(x + t, '\"', |x| + j);
  }

  lemma TakeAfter(x: string, t: string, j: nat)
    requires j <= |t|
    ensures (x + t)[..|x| + j] == x + t[..j]
  {
  }

  /** The text before the first quote. */
  function BeforeQuote(s: string): string {
    s[..IndexOf(s, '\"', 0)]
  }

  lemma QuoteEndsPrefix(x: string, t: string)
    requires '\"' !in x
    ensures BeforeQuote(x + ("\"" + t)) == x
  {
    FirstQuoteAfter(x, "\"" + t);
  }

  lemma SameAfter(x: string, a: string, b: string)
    ensures x + a == x + b <==> a == b
  {
    assert (x + a)[|x|..] == a && (x + b)[|x|..] == b;
  }

  /** What precedes the first quote is the text itself only if the text needed no escaping. */
  lemma {:induction false} FirstQuoteOfEscaped(s: string, pending: nat, rest: string)
    ensures BeforeQuote(Escaped(s, pending) + "\"" + rest) == Slashes(pending) + s <==> PlainAfter(pending, s)
    decreases |s|
  {
    hide BeforeQuote;
    if s != "" {
      PlainStep(pending, s);
    }
    if s == "" {
      Assoc(Slashes(2 * pending), "\"", rest);
      QuoteEndsPrefix(Slashes(2 * pending), rest);
      assert |Slashes(pending) + s| == pending;
      assert Slashes(2 * 0) == Slashes(0) + s;
    } else if s[0] == '\\' {
      hide PlainAfter;
      FirstQuoteOfEscaped(s[1..], pending + 1, rest);
      SlashMoves(s, pending, "");
      assert "" + Slashes(pending + 1) == Slashes(pending + 1) && "" + Slashes(pending) == Slashes(pending);
    } else if s[0] == '\"' {
      hide Escaped, PlainAfter;
      EscapedQuote(s, pending, rest);
      QuoteEndsPrefix(Slashes(2 * pending + 1), Escaped(s[1..], 0) + "\"" + rest);
      assert (Slashes(pending) + s)[pending] == '\"';
    } else {
      hide Escaped, PlainAfter;
      FirstQuoteOfEscaped(s[1..], 0, rest);
      OrdinaryBeforeQuote(s, pending, rest);
      assert Slashes(0) + s[1..] == s[1..];
    }
  }

  lemma OrdinaryBeforeQuote(s: string, pending: nat, rest: string)
    requires s != "" && s[0] != '\\' && s[0] != '\"'
    ensures BeforeQuote(Escaped(s, pending) + "\"" + rest) == Slashes(pending) + s <==>
            BeforeQuote(Escaped(s[1..], 0) + "\"" + rest) == s[1..]
  {
    hide Escaped;
    var more, x := Escaped(s[1..], 0) + "\"" + rest, Slashes(pending) + [s[0]];
    EscapedOrdinary(s, pending, rest);
    Assoc(Slashes(pending), [s[0]], more);
    FirstQuoteAfter(x, more);
    assert s == [s[0]] + s[1..];
    Assoc(Slashes(pending), [s[0]], s[1..]);
    SameAfter(x, BeforeQuote(more), s[1..]);
  }
}
