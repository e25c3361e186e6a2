/** The recovery command line in the bootloader message, and what a reboot makes of it. */
module BootMessage {
  import opened Bytes

  const MaxArgs := 100
  const FieldSize := 1024

  // Splitting and joining lines

  /** Length of the first line. */
  function LineLength(s: string): (n: nat)
    ensures n <= |s| && (forall i :: 0 <= i < n ==> s[i] != '\n') && (n < |s| ==> s[n] == '\n')
  {
    if s == "" || s[0] == '\n' then 0 else 1 + LineLength(s[1..])
  }

  /** What `strtok` with a newline gives, call by call. */
  function Tokens(s: string): (ts: seq<string>)
    decreases |s|
  {
    if s == "" then []
    else if s[0] == '\n' then Tokens(s[1..])
    else [s[..LineLength(s)]] + Tokens(s[LineLength(s)..])
  }

  function Joined(ts: seq<string>): (s: string) { if ts == [] then "" else ts[0] + "\n" + Joined(ts[1..]) }

  predicate Proper(t: string) { t != "" && '\n' !in t }

  predicate AllProper(ts: seq<string>) { forall i :: 0 <= i < |ts| ==> Proper(ts[i]) }

  lemma {:induction false} TokensProper(s: string)
    ensures AllProper(Tokens(s))
    decreases |s|
  {
    if s != "" {
      if s[0] == '\n' { TokensProper(s[1..]); } else { TokensProper(s[LineLength(s)..]); }
    }
  }

  lemma {:induction false} LineOf(t: string, rest: string)
    requires '\n' !in t && (rest == "" || rest[0] == '\n')
    ensures LineLength(t + rest) == |t|
  {
    if t == "" {
      assert t + rest == rest;
    } else {
      LineOf(t[1..], rest);
      assert (t + rest)[1..] == t[1..] + rest;
    }
  }

  /** A proper token in front of a newline or the end. */
  lemma TokensCons(t: string, rest: string)
    requires Proper(t) && (rest == "" || rest[0] == '\n')
    ensures Tokens(t + rest) == [t] + Tokens(rest)
  {
    LineOf(t, rest);
    var s := t + rest;
    assert s[0] == t[0] && s[..|t|] == t && s[|t|..] == rest;
  }

  lemma {:induction false} TokensOfJoined(ts: seq<string>)
    requires AllProper(ts)
    ensures Tokens(Joined(ts)) == ts
  {
    if ts != [] {
      var rest := Joined(ts[1..]);
      TokensOfJoined(ts[1..]);
      assert Joined(ts) == ts[0] + ("\n" + rest) && ("\n" + rest)[1..] == rest;
      TokensCons(ts[0], "\n" + rest);
    }
  }

  /** Everything but the last newline. */
  function Most(ts: seq<string>): (s: string)
    requires ts != []
    ensures s + "\n" == Joined(ts)
  {
    if |ts| == 1 then ts[0] else ts[0] + "\n" + Most(ts[1..])
  }

  /** The last newline does not matter. */
  lemma {:induction false} TokensOfMost(ts: seq<string>)
    requires AllProper(ts) && ts != []
    ensures Tokens(Most(ts)) == ts
  {
    if |ts| == 1 {
      assert Most(ts) == ts[0] + "";
      TokensCons(ts[0], "");
    } else {
      var most := Most(ts[1..]);
      TokensOfMost(ts[1..]);
      assert Most(ts) == ts[0] + ("\n" + most) && ("\n" + most)[1..] == most;
      TokensCons(ts[0], "\n" + most);
    }
  }

  // Counting characters

  /** The characters that are not newlines. */
  function Ink(s: string): (n: nat) { if s == "" then 0 else (if s[0] == '\n' then 0 else 1) + Ink(s[1..]) }

  lemma {:induction false} InkConcat(a: string, b: string)
    ensures Ink(a + b) == Ink(a) + Ink(b)
  {
    if a == "" {
      assert a + b == b;
    } else {
      InkConcat(a[1..], b);
      assert (a + b)[1..] == a[1..] + b;
    }
  }

  lemma {:induction false} InkOfToken(t: string)
    requires '\n' !in t
    ensures Ink(t) == |t|
  {
    if t != "" { InkOfToken(t[1..]); }
  }

  function Sum(ts: seq<string>): (n: nat) { if ts == [] then 0 else |ts[0]| + Sum(ts[1..]) }

  lemma {:induction false} SumOfTokens(s: string)
    ensures Sum(Tokens(s)) == Ink(s)
    decreases |s|
  {
    if s != "" {
      if s[0] == '\n' {
        SumOfTokens(s[1..]);
      } else {
        var n := LineLength(s);
        SumOfTokens(s[n..]);
        InkOfToken(s[..n]);
        InkConcat(s[..n], s[n..]);
        assert s == s[..n] + s[n..];
      }
    }
  }

  lemma {:induction false} SumOfPrefix(ts: seq<string>, k: nat)
    requires k <= |ts|
    ensures Sum(ts[..k]) <= Sum(ts)
  {
    if k > 0 {
      SumOfPrefix(ts[1..], k - 1);
      assert ts[..k][1..] == ts[1..][..k - 1];
    }
  }

  /** Newlines between tokens take no more room than there was. */
  lemma {:induction false} JoinedLength(s: string)
    ensures |Joined(Tokens(s))| <= |s| + 1
    ensures s != "" && s[0] == '\n' ==> |Joined(Tokens(s))| <= |s|
    decreases |s|
  {
    if s != "" {
      if s[0] == '\n' { JoinedLength(s[1..]); } else { JoinedLength(s[LineLength(s)..]); }
    }
  }

  /** A joined list of proper tokens ends with a character and a newline. */
  lemma {:induction false} JoinedEnd(ts: seq<string>)
    requires AllProper(ts) && ts != []
    ensures var s := Joined(ts); |s| >= 2 && s[|s| - 1] == '\n' && s[|s| - 2] != '\n'
  {
    if |ts| > 1 { JoinedEnd(ts[1..]); }
  }

  // The message

  const Program := "recovery"

  function Message(args: seq<string>): (s: string) { Joined([Program] + args) }

  /** What fits into a buffer of `size`; the last character is a NUL. */
  function CutTo(s: string, size: nat): (r: string)
    requires size > 0
    ensures |r| < size && r <= s
  {
    if |s| < size then s else s[..size - 1]
  }

  /** What fits into the field. */
  function Cut(s: string): (r: string) { CutTo(s, FieldSize) }

  /** The arguments in a message, if it is one. */
  function FromMessage(s: string): (args: Option<seq<string>>) {
    var ts := Tokens(s);
    if ts == [] || ts[0] != Program then None else Some(if |ts| > MaxArgs then ts[1..MaxArgs] else ts[1..])
  }

  /** The arguments are read back from what was written of them. */
  predicate Restorable(args: seq<string>) { |args| < MaxArgs && AllProper(args) && |Message(args)| <= FieldSize }

  lemma RestorableReadBack(args: seq<string>)
    requires Restorable(args)
    ensures FromMessage(Cut(Message(args))) == Some(args)
  {
    var ts := [Program] + args;
    TokensOfJoined(ts);
    TokensOfMost(ts);
    assert Message(args)[..|Message(args)| - 1] == Most(ts);
    assert ts[1..] == args;
  }

  lemma TooLongLosesInk(args: seq<string>)
    requires AllProper(args) && |Message(args)| > FieldSize
    ensures Ink(Cut(Message(args))) < Sum([Program] + args)
  {
    var ts, s := [Program] + args, Message(args);
    var n := FieldSize - 1;
    JoinedEnd(ts);
    TokensOfJoined(ts);
    SumOfTokens(s);
    InkConcat(s[..n], s[n..|s| - 2]);
    InkConcat(s[..|s| - 2], s[|s| - 2..]);
    assert s[..n] + s[n..|s| - 2] == s[..|s| - 2] && s[..|s| - 2] + s[|s| - 2..] == s;
    assert Ink(s[|s| - 2..]) >= 1;
  }

  /**
   They are read back exactly when there are less than a hundred of them, none is empty or has a newline, and they fit.
   */
  lemma ReadBackIff(args: seq<string>)
    ensures FromMessage(Cut(Message(args))) == Some(args) <==> Restorable(args)
  {
    var cut := Cut(Message(args));
    var ts := Tokens(cut);
    if Restorable(args) { RestorableReadBack(args); }
    else if FromMessage(cut) == Some(args) {
      TokensProper(cut);
      var k := |args| + 1;
      assert ts[..k] == [Program] + args;
      assert AllProper(args) by { forall i | 0 <= i < |args| ensures Proper(args[i]) { assert args[i] == ts[i + 1]; } }
      SumOfTokens(cut);
      SumOfPrefix(ts, k);
      if |Message(args)| > FieldSize { TooLongLosesInk(args); }
    }
  }

  /** What comes from a message can be written back. */
  lemma MessageIsRestorable(s: string)
    requires |s| < FieldSize && FromMessage(s).Some?
    ensures Restorable(FromMessage(s).value)
  {
    var ts := Tokens(s);
    TokensProper(s);
    JoinedLength(s);
    var args := FromMessage(s).value;
    assert [Program] + args == if |ts| > MaxArgs then ts[..MaxArgs] else ts;
    if |ts| > MaxArgs { JoinedPrefix(ts, MaxArgs); }
  }

  lemma {:induction false} JoinedPrefix(ts: seq<string>, k: nat)
    requires k <= |ts|
    ensures |Joined(ts[..k])| <= |Joined(ts)|
  {
    if k > 0 {
      JoinedPrefix(ts[1..], k - 1);
      assert ts[..k][1..] == ts[1..][..k - 1];
    }
  }

  // Strings in buffers

  /** The characters before the NUL. */
  function CString(s: seq<char>): (r: string)
    ensures |r| <= |s| && r == s[..|r|] && '\0' !in r && (|r| < |s| ==> s[|r|] == '\0')
  {
    if s == [] || s[0] == '\0' then "" else [s[0]] + CString(s[1..])
  }

  lemma {:induction false} CStringIs(s: seq<char>, n: nat)
    requires n < |s| && s[n] == '\0' && '\0' !in s[..n]
    ensures CString(s) == s[..n]
  {
    if n > 0 {
      assert s[..n][0] == s[0] && s[..n][1..] == s[1..][..n - 1];
      CStringIs(s[1..], n - 1);
    }
  }

  /** Writes as much of `src` behind `at` as fits, and a NUL. */
  method PutString(dst: array<char>, at: nat, src: string)
    requires at < dst.Length && '\0' !in dst[..at] && '\0' !in src
    modifies dst
    ensures CString(dst[..]) == CutTo(old(dst[..at]) + src, dst.Length)
  {
    var n := if |src| < dst.Length - at then |src| else dst.Length - 1 - at;
    ghost var head := dst[..at];
    var i: nat := 0;
    while i < n
      invariant i <= n && dst[..at + i] == head + src[..i]
    {
      dst[at + i] := src[i];
      assert src[..i + 1] == src[..i] + [src[i]];
      i := i + 1;
    }
    dst[at + n] := '\0';
    assert dst[..at + n] == head + src[..n] == (head + src)[..at + n];
    PutDone(dst[..], at + n, head + src);
  }

  lemma PutDone(s: string, n: nat, whole: string)
    requires n < |s| && n <= |whole| && (n == |whole| || n == |s| - 1) && '\0' !in whole
    requires s[..n] == whole[..n] && s[n] == '\0'
    ensures CString(s) == CutTo(whole, |s|)
  {
    CStringIs(s, n);
    assert n == |whole| ==> whole[..n] == whole;
  }

  /** `strlcpy`. */
  method Strlcpy(dst: array<char>, src: string)
    requires dst.Length > 0 && '\0' !in src
    modifies dst
    ensures CString(dst[..]) == CutTo(src, dst.Length)
  {
    PutString(dst, 0, src);
    assert [] + src == src;
  }

  /** `strlcat`, on a buffer that holds a string. */
  method Strlcat(dst: array<char>, src: string)
    requires |CString(dst[..])| < dst.Length && '\0' !in src
    modifies dst
    ensures CString(dst[..]) == CutTo(old(CString(dst[..])) + src, dst.Length) && |CString(dst[..])| < dst.Length
  {
    var n: nat := 0;
    ghost var s := CString(dst[..]);
    while dst[n] != '\0'
      invariant n <= |s| && dst[..][..n] == s[..n]
      decreases |s| - n
    {
      n := n + 1;
    }
    assert dst[..n] == s[..n] && s[..n] == s;
    PutString(dst, n, src);
  }

  lemma CutTwice(a: string, b: string, size: nat)
    requires size > 0
    ensures CutTo(CutTo(a, size) + b, size) == CutTo(a + b, size)
  {
  }

  // get_args

  predicate IsBreak(c: char) { c == '\r' || c == '\n' }

  function UpToBreak(s: string): (n: nat)
    ensures n <= |s| && forall i :: 0 <= i < n ==> !IsBreak(s[i])
  {
    if s == "" || IsBreak(s[0]) then 0 else 1 + UpToBreak(s[1..])
  }

  /** The first thing in a line of the command file. */
  function FirstToken(line: string): (t: Option<string>)
    ensures t.Some? ==> Proper(t.value)
  {
    if line == "" then None
    else if IsBreak(line[0]) then FirstToken(line[1..])
    else Some(line[..UpToBreak(line)])
  }

  /** The arguments in the command file, one per line; empty lines do not count. */
  function FileArgs(lines: seq<string>, room: nat): (args: seq<string>)
    ensures |args| <= room && AllProper(args)
    decreases |lines|
  {
    if lines == [] || room == 0 then []
    else
      match FirstToken(lines[0])
      case None => FileArgs(lines[1..], room)
      case Some(t) => [t] + FileArgs(lines[1..], room - 1)
  }

  /** Where the arguments come from: the command line, the bootloader message, the command file. */
  function Effective(message: string, commandLine: seq<string>, file: Option<seq<string>>): (args: seq<string>) {
    var m := FromMessage(message);
    if commandLine != [] then commandLine
    else if m.Some? && m.value != [] then m.value
    else if file.Some? then FileArgs(file.value, MaxArgs - 1)
    else []
  }

  lemma FileStep(lines: seq<string>, i: nat, room: nat, args: seq<string>, rest: seq<string>, t: Option<string>)
      returns (rest2: seq<string>)
    requires i < |lines| && room > 0 && rest == FileArgs(lines[i..], room) && t == FirstToken(lines[i])
    ensures rest2 == FileArgs(lines[i + 1..], if t.None? then room else room - 1)
    ensures args + rest == (if t.None? then args else args + [t.value]) + rest2
  {
    assert lines[i..][1..] == lines[i + 1..];
    rest2 := FileArgs(lines[i + 1..], if t.None? then room else room - 1);
    if t.Some? { assert args + ([t.value] + rest2) == (args + [t.value]) + rest2; }
  }

  /** The loop over the lines of the command file. */
  method ReadFile(lines: seq<string>) returns (args: seq<string>)
    ensures args == FileArgs(lines, MaxArgs - 1)
  {
    args := [];
    var i: nat := 0;
    ghost var room: nat, goal := MaxArgs - 1, FileArgs(lines, MaxArgs - 1);
    ghost var rest := goal;
    assert lines[0..] == lines && [] + goal == goal;
    while i < |lines| && |args| < MaxArgs - 1
      invariant i <= |lines| && room + |args| == MaxArgs - 1 && rest == FileArgs(lines[i..], room) &&
                args + rest == goal
    {
      var token := FirstToken(lines[i]);
      rest := FileStep(lines, i, room, args, rest, token);
      if token.Some? { args, room := args + [token.value], room - 1; }
      i := i + 1;
    }
    assert args + [] == args;
  }

  /** Appends one argument and a newline. */
  method AppendLine(field: array<char>, arg: string, ghost done: string)
    requires field.Length == FieldSize && '\0' !in arg && CString(field[..]) == Cut(done)
    modifies field
    ensures CString(field[..]) == Cut(done + arg + "\n")
  {
    Strlcat(field, arg);
    CutTwice(done, arg, FieldSize);
    Strlcat(field, "\n");
    CutTwice(done + arg, "\n", FieldSize);
  }

  lemma JoinedStep(done: string, args: seq<string>, i: nat, next: nat, goal: string)
    requires i < |args| && next == i + 1 && done + Joined(args[i..]) == goal
    ensures (done + args[i] + "\n") + Joined(args[next..]) == goal
  {
    assert args[i..][1..] == args[next..];
    var rest := Joined(args[next..]);
    assert Joined(args[i..]) == args[i] + "\n" + rest;
    assert done + (args[i] + "\n" + rest) == (done + args[i] + "\n") + rest;
  }

  /** Writes the arguments into the field, one per line. */
  method WriteBack(field: array<char>, args: seq<string>)
    requires field.Length == FieldSize && forall i :: 0 <= i < |args| ==> '\0' !in args[i]
    modifies field
    ensures CString(field[..]) == Cut(Message(args))
  {
    Strlcpy(field, "recovery\n");
    var i: nat := 0;
    ghost var done, goal := "recovery\n", Message(args);
    MessageStart(args);
    while i < |args|
      invariant i <= |args| && CString(field[..]) == Cut(done) && done + Joined(args[i..]) == goal
    {
      AppendLine(field, args[i], done);
      JoinedStep(done, args, i, i + 1, goal);
      done, i := done + args[i] + "\n", i + 1;
    }
    assert done + "" == done;
  }

  lemma MessageStart(args: seq<string>)
    ensures "recovery\n" + Joined(args[0..]) == Message(args)
  {
    assert ([Program] + args)[1..] == args && args[0..] == args;
    assert Program + "\n" == "recovery\n";
  }

  /** `get_args`: finds the arguments and writes them back, so that a reboot finds them again. */
  method GetArgs(field: array<char>, commandLine: seq<string>, file: Option<seq<string>>) returns (args: seq<string>)
    requires field.Length == FieldSize
    requires (forall i :: 0 <= i < |commandLine| ==> '\0' !in commandLine[i]) &&
             (file.Some? ==> forall i :: 0 <= i < |file.value| ==> '\0' !in file.value[i])
    modifies field
    ensures args == Effective(CString(old(field[..FieldSize - 1])), commandLine, file)
    ensures CString(field[..]) == Cut(Message(args))
  {
    args := commandLine;
    if args == [] {
      field[FieldSize - 1] := '\0';
      assert field[..FieldSize - 1] == old(field[..FieldSize - 1]);
      var m := FromMessage(CString(field[..FieldSize - 1]));
      if m.Some? { args := m.value; }
      TokensClean(CString(field[..FieldSize - 1]));
    }
    if args == [] && file.Some? {
      args := ReadFile(file.value);
      FileClean(file.value, MaxArgs - 1);
    }
    WriteBack(field, args);
  }

  lemma {:induction false} TokensClean(s: string)
    requires '\0' !in s
    ensures forall i :: 0 <= i < |Tokens(s)| ==> '\0' !in Tokens(s)[i]
    decreases |s|
  {
    if s != "" {
      if s[0] == '\n' { TokensClean(s[1..]); } else { TokensClean(s[LineLength(s)..]); }
    }
  }

  lemma {:induction false} FirstClean(line: string)
    requires '\0' !in line
    ensures FirstToken(line).Some? ==> '\0' !in FirstToken(line).value
  {
    if line != "" && IsBreak(line[0]) { FirstClean(line[1..]); }
  }

  lemma {:induction false} FileClean(lines: seq<string>, room: nat)
    requires forall i :: 0 <= i < |lines| ==> '\0' !in lines[i]
    ensures forall i :: 0 <= i < |FileArgs(lines, room)| ==> '\0' !in FileArgs(lines, room)[i]
    decreases |lines|
  {
    if lines != [] && room > 0 {
      FirstClean(lines[0]);
      FileClean(lines[1..], if FirstToken(lines[0]).Some? then room - 1 else room);
    }
  }

  // Reboots

  /**
   The arguments of the recovery runs that follow one another, each after a reboot; `files` is the command file each of
   them finds.
   */
  function Runs(message: string, files: seq<Option<seq<string>>>): (rs: seq<seq<string>>)
    decreases |files|
  {
    if files == [] then []
    else
      var args := Effective(message, [], files[0]);
      [args] + Runs(Cut(Message(args)), files[1..])
  }

  /**
   Once `get_args` has written arguments that can be restored, every reboot repeats the same command, whatever has
   become of the command file.
   */
  lemma {:induction false} RebootsRepeat(args: seq<string>, files: seq<Option<seq<string>>>)
    requires Restorable(args) && args != []
    ensures |Runs(Cut(Message(args)), files)| == |files|
    ensures forall k :: 0 <= k < |files| ==> Runs(Cut(Message(args)), files)[k] == args
    decreases |files|
  {
    if files != [] {
      RestorableReadBack(args);
      RebootsRepeat(args, files[1..]);
    }
  }

  /** Arguments that came from a bootloader message are repeated in any case. */
  lemma MessageRepeats(message: string, files: seq<Option<seq<string>>>)
    requires |message| < FieldSize && FromMessage(message).Some? && FromMessage(message).value != []
    ensures |Runs(message, files)| == |files|
    ensures forall k :: 0 <= k < |files| ==> Runs(message, files)[k] == FromMessage(message).value
  {
    if files != [] {
      var args := FromMessage(message).value;
      MessageIsRestorable(message);
      RebootsRepeat(args, files[1..]);
    }
  }

  lemma BlankMessage()
    ensures CString(seq(FieldSize - 1, _ => '\0')) == ""
  {
  }

  lemma NothingReadBack(message: string)
    requires message == "" || message == Cut(Message([]))
    ensures Effective(message, [], None) == []
  {
    if message != "" {
      assert [Program] + [] == [Program] && Joined([Program]) == Program + "\n" + Joined([]);
      RestorableReadBack([]);
    }
  }

  /**
   After `finish_recovery` has cleared the message and removed the command file, no recovery run gets any arguments
   again, although each of them writes a message.
   */
  lemma {:induction false} FinishedHasNoArgs(message: string, files: seq<Option<seq<string>>>)
    requires message == CString(seq(FieldSize - 1, _ => '\0')) || message == Cut(Message([]))
    requires forall k :: 0 <= k < |files| ==> files[k] == None
    ensures |Runs(message, files)| == |files| && forall k :: 0 <= k < |files| ==> Runs(message, files)[k] == []
    decreases |files|
  {
    if files != [] {
      BlankMessage();
      NothingReadBack(message);
      FinishedHasNoArgs(Cut(Message([])), files[1..]);
    }
  }
}
