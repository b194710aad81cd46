/** Removing `bridge-*` control fences from assistant prose, line by line. */
module BridgeFences {
  import opened Text

  const FENCE := "```"
  const MARK := "bridge-"

  predicate IsBreak(c: char) {
    c == '\r' || c == '\n'
  }

  /** The lines of a text; `\r\n`, `\r` and `\n` each end one. */
  function Lines(text: string): (lines: seq<string>)
    ensures lines != []
  {
    if text == "" then [""]
    else if text[0] == '\r' && |text| > 1 && text[1] == '\n' then [""] + Lines(text[2..])
    else if IsBreak(text[0]) then [""] + Lines(text[1..])
    else
      var rest := Lines(text[1..]);
      [[text[0]] + rest[0]] + rest[1..]
  }

  function Joined(lines: seq<string>): string {
    if lines == [] then ""
    else if |lines| == 1 then lines[0]
    else lines[0] + "\n" + Joined(lines[1..])
  }

  function Lower(c: char): char {
    if 'A' <= c <= 'Z' then c + ' ' else c
  }

  /** `text` begins with `word`, whatever its case. */
  predicate BeginsWith(text: string, word: string) {
    |text| >= |word| && forall i :: 0 <= i < |word| ==> Lower(text[i]) == word[i]
  }

  function SkipTicks(text: string): string {
    if text != "" && text[0] == '`' then SkipTicks(text[1..]) else text
  }

  function SkipBlanks(text: string): string {
    if text != "" && (text[0] == ' ' || text[0] == '\t') then SkipBlanks(text[1..]) else text
  }

  /** Three or more backticks, blanks, and a `bridge-` name. */
  predicate OpensFence(line: string) {
    var trimmed := Trim(line);
    BeginsWith(trimmed, FENCE) && BeginsWith(SkipBlanks(SkipTicks(trimmed)), MARK)
  }

  predicate ClosesFence(line: string) {
    BeginsWith(Trim(line), FENCE)
  }

  /** What follows the first closing line, or nothing while the fence is still open. */
  function AfterFence(lines: seq<string>): (rest: seq<string>)
    ensures |rest| <= |lines|
  {
    if lines == [] then []
    else if ClosesFence(lines[0]) then lines[1..]
    else AfterFence(lines[1..])
  }

  function Kept(lines: seq<string>): seq<string>
    decreases |lines|
  {
    if lines == [] then []
    else if OpensFence(lines[0]) then Kept(AfterFence(lines[1..]))
    else [lines[0]] + Kept(lines[1..])
  }

  function Stripped(text: string): string {
    Trim(Joined(Kept(Lines(text))))
  }

  method StripBridgeFences(text: string) returns (prose: string)
    ensures prose == Stripped(text)
  {
    hide OpensFence, ClosesFence;
    var lines := Lines(text);
    var kept: seq<string> := [];
    var index: nat := 0;
    assert lines[0..] == lines;
    while index < |lines|
      invariant index <= |lines|
      invariant kept + Kept(lines[index..]) == Kept(lines)
    {
      assert lines[index..][1..] == lines[index + 1..];
      if OpensFence(lines[index]) {
        var closing := -1;
        var cursor := index + 1;
        while cursor < |lines|
          invariant index < cursor <= |lines|
          invariant AfterFence(lines[cursor..]) == AfterFence(lines[index + 1..])
        {
          assert lines[cursor..][1..] == lines[cursor + 1..];
          if ClosesFence(lines[cursor]) {
            closing := cursor;
            break;
          }
          cursor := cursor + 1;
        }
        index := if closing >= 0 then closing + 1 else |lines|;
        continue;
      }
      assert kept + ([lines[index]] + Kept(lines[index + 1..])) == kept + [lines[index]] + Kept(lines[index + 1..]);
      kept := kept + [lines[index]];
      index := index + 1;
    }
    assert kept == Kept(lines);
    prose := Trim(Joined(kept));
  }

  // ----- No fence is left --------------------------------------------------

  predicate NoFence(lines: seq<string>) {
    forall i :: 0 <= i < |lines| ==> !OpensFence(lines[i])
  }

  lemma {:induction false} KeptHasNoFence(lines: seq<string>)
    ensures NoFence(Kept(lines))
    decreases |lines|
  {
    hide OpensFence, ClosesFence;
    if lines != [] {
      if OpensFence(lines[0]) {
        KeptHasNoFence(AfterFence(lines[1..]));
      } else {
        KeptHasNoFence(lines[1..]);
      }
    }
  }

  lemma {:induction false} NothingToStrip(lines: seq<string>)
    requires NoFence(lines)
    ensures Kept(lines) == lines
  {
    hide OpensFence;
    if lines != [] {
      NothingToStrip(lines[1..]);
    }
  }

  // ----- Streaming ---------------------------------------------------------

  lemma {:induction false} AfterFenceOfPrefix(lines: seq<string>, n: nat) returns (m: nat)
    requires n <= |lines|
    ensures m <= |AfterFence(lines)| && AfterFence(lines[..n]) == AfterFence(lines)[..m]
  {
    hide ClosesFence;
    m := 0;
    if n > 0 {
      assert lines[..n][1..] == lines[1..][..n - 1];
      if ClosesFence(lines[0]) {
        m := n - 1;
      } else {
        m := AfterFenceOfPrefix(lines[1..], n - 1);
      }
    }
  }

  /** The lines kept so far stay, whatever streams in behind them, even from inside an open fence. */
  lemma {:induction false} StreamingOnlyAppends(lines: seq<string>, n: nat)
    requires n <= |lines|
    ensures Kept(lines[..n]) <= Kept(lines)
    decreases |lines|
  {
    hide OpensFence, ClosesFence;
    if n > 0 {
      var rest := lines[1..];
      assert lines[..n][1..] == rest[..n - 1];
      if OpensFence(lines[0]) {
        var m := AfterFenceOfPrefix(rest, n - 1);
        StreamingOnlyAppends(AfterFence(rest), m);
      } else {
        StreamingOnlyAppends(rest, n - 1);
      }
    }
  }

  // ----- Stripping twice ---------------------------------------------------

  predicate OneLine(line: string) {
    forall i :: 0 <= i < |line| ==> !IsBreak(line[i])
  }

  predicate NoReturn(text: string) {
    '\r' !in text
  }

  lemma {:induction false} LinesAreLines(text: string)
    ensures forall line :: line in Lines(text) ==> OneLine(line)
    decreases |text|
  {
    if text != "" {
      if text[0] == '\r' && |text| > 1 && text[1] == '\n' {
        LinesAreLines(text[2..]);
      } else {
        LinesAreLines(text[1..]);
        assert Lines(text[1..])[0] in Lines(text[1..]);
      }
    }
  }

  lemma {:induction false} LinesOfLine(line: string, text: string)
    requires OneLine(line)
    ensures Lines(line) == [line]
    ensures Lines(line + "\n" + text) == [line] + Lines(text)
  {
    var whole := line + "\n" + text;
    if line == "" {
      assert whole[0] == '\n' && whole[1..] == text;
    } else {
      LinesOfLine(line[1..], text);
      assert whole[1..] == line[1..] + "\n" + text;
      assert [line[0]] + line[1..] == line;
    }
  }

  lemma {:induction false} LinesOfJoined(lines: seq<string>)
    requires lines != [] && forall line :: line in lines ==> OneLine(line)
    ensures Lines(Joined(lines)) == lines && NoReturn(Joined(lines))
  {
    LinesOfLine(lines[0], if |lines| > 1 then Joined(lines[1..]) else "");
    if |lines| > 1 {
      LinesOfJoined(lines[1..]);
    }
  }

  lemma JoinedUnrolls(first: string, rest: seq<string>)
    ensures Joined([first] + rest) == if rest == [] then first else first + "\n" + Joined(rest)
  {
    assert ([first] + rest)[1..] == rest;
  }

  lemma JoinedCons(a: char, first: string, rest: seq<string>)
    ensures Joined([[a] + first] + rest) == [a] + Joined([first] + rest)
  {
    hide Joined;
    JoinedUnrolls(first, rest);
    JoinedUnrolls([a] + first, rest);
    assert [a] + (first + "\n" + Joined(rest)) == [a] + first + "\n" + Joined(rest);
  }

  lemma JoinedBlank(lines: seq<string>)
    requires lines != []
    ensures Joined([""] + lines) == "\n" + Joined(lines)
  {
    hide Joined;
    JoinedUnrolls("", lines);
    assert "" + "\n" + Joined(lines) == "\n" + Joined(lines);
  }

  lemma {:induction false} JoinedLines(text: string)
    requires NoReturn(text)
    ensures Joined(Lines(text)) == text
  {
    if text != "" {
      assert text[0] in text && text == [text[0]] + text[1..];
      assert NoReturn(text[1..]);
      JoinedLines(text[1..]);
      var rest := Lines(text[1..]);
      assert rest == [rest[0]] + rest[1..];
      JoinedCons(text[0], rest[0], rest[1..]);
      JoinedBlank(rest);
      hide Joined;
    }
  }

  /** White space around a line neither opens nor hides a fence. */
  lemma {:induction false} OpensIgnoresSpace(c: char, line: string)
    requires IsSpace(c)
    ensures OpensFence([c] + line) == OpensFence(line) == OpensFence(line + [c])
  {
    TrimConsSpace(c, line);
    TrimSnocSpace(line, c);
  }

  lemma {:induction false} TrimStartKeepsNoFence(text: string)
    requires NoReturn(text) && NoFence(Lines(text))
    ensures NoFence(Lines(TrimStart(text))) && NoReturn(TrimStart(text))
  {
    hide OpensFence;
    if text != "" && IsSpace(text[0]) {
      var rest := Lines(text[1..]);
      assert text[0] != '\r' && NoReturn(text[1..]);
      if text[0] == '\n' {
        assert Lines(text)[1..] == rest;
      } else {
        OpensIgnoresSpace(text[0], rest[0]);
        assert !OpensFence(Lines(text)[0]) && Lines(text)[1..] == rest[1..];
      }
      assert NoFence(rest) by {
        forall i | 0 <= i < |rest|
          ensures !OpensFence(rest[i])
        {
          assert text[0] == '\n' ==> rest[i] == Lines(text)[i + 1];
          assert text[0] != '\n' && i > 0 ==> rest[i] == Lines(text)[i];
        }
      }
      TrimStartKeepsNoFence(text[1..]);
    }
  }

  /** One more character at the end of a text. */
  function LineSnoc(lines: seq<string>, c: char): seq<string>
    requires lines != []
  {
    if c == '\n' then lines + [""] else lines[..|lines| - 1] + [lines[|lines| - 1] + [c]]
  }

  lemma LineConsSnoc(a: char, lines: seq<string>, c: char)
    requires lines != []
    ensures
      var cons := [[a] + lines[0]] + lines[1..];
      var snoc := LineSnoc(lines, c);
      LineSnoc(cons, c) == [[a] + snoc[0]] + snoc[1..]
  {
    if |lines| == 1 {
      assert [a] + (lines[0] + [c]) == [a] + lines[0] + [c];
    }
  }

  lemma {:induction false} LinesSnoc(text: string, c: char)
    requires NoReturn(text) && c != '\r'
    ensures Lines(text + [c]) == LineSnoc(Lines(text), c)
  {
    if text == "" {
      assert text + [c] == [c] && [c][1..] == "";
      assert Lines([c]) == if c == '\n' then [""] + Lines("") else [[c] + Lines("")[0]] + Lines("")[1..];
      assert [c] + "" == [c] && "" + [c] == [c];
    } else {
      assert NoReturn(text[1..]) && text[0] in text;
      assert (text + [c])[1..] == text[1..] + [c];
      LinesSnoc(text[1..], c);
      LineConsSnoc(text[0], Lines(text[1..]), c);
    }
  }

  lemma {:induction false} TrimEndKeepsNoFence(text: string)
    requires NoReturn(text) && NoFence(Lines(text))
    ensures NoFence(Lines(TrimEnd(text))) && NoReturn(TrimEnd(text))
  {
    hide OpensFence;
    if text != "" && IsSpace(text[|text| - 1]) {
      var n := |text| - 1;
      var c, init := text[n], text[..n];
      assert text == init + [c] && NoReturn(init) && c in text;
      LinesSnoc(init, c);
      var lines := Lines(init);
      OpensIgnoresSpace(c, lines[|lines| - 1]);
      forall i | 0 <= i < |lines|
        ensures !OpensFence(lines[i])
      {
        if i < |lines| - 1 || c == '\n' {
          assert lines[i] == Lines(text)[i];
        } else {
          assert Lines(text)[i] == lines[i] + [c];
        }
      }
      TrimEndKeepsNoFence(init);
    }
  }

  lemma {:induction false} KeptTextHasNoFence(text: string)
    ensures
      var joined := Joined(Kept(Lines(text)));
      NoReturn(joined) && NoFence(Lines(joined))
  {
    var kept := Kept(Lines(text));
    KeptHasNoFence(Lines(text));
    KeptAreLines(Lines(text));
    LinesAreLines(text);
    if kept == [] {
      assert !OpensFence("");
    } else {
      hide Lines, Joined, Kept, NoFence;
      LinesOfJoined(kept);
    }
  }

  /** Stripping what was stripped changes nothing, and no line of it opens a fence. */
  lemma {:induction false} StrippingIsIdempotent(text: string)
    ensures NoFence(Lines(Stripped(text)))
    ensures Stripped(Stripped(text)) == Stripped(text)
  {
    hide Lines, Joined, Kept, NoFence, NoReturn, TrimStart, TrimEnd;
    var joined, prose := Joined(Kept(Lines(text))), Stripped(text);
    KeptTextHasNoFence(text);
    TrimStartKeepsNoFence(joined);
    TrimEndKeepsNoFence(TrimStart(joined));
    NothingToStrip(Lines(prose));
    JoinedLines(prose);
    TrimTrims(joined);
    TrimTrims(prose);
  }

  lemma {:induction false} KeptAreLines(lines: seq<string>)
    ensures forall line :: line in Kept(lines) ==> line in lines
    decreases |lines|
  {
    hide OpensFence, ClosesFence;
    if lines != [] {
      if OpensFence(lines[0]) {
        KeptAreLines(AfterFence(lines[1..]));
        AfterFenceIsWithin(lines[1..]);
      } else {
        KeptAreLines(lines[1..]);
      }
    }
  }

  lemma {:induction false} AfterFenceIsWithin(lines: seq<string>)
    ensures forall line :: line in AfterFence(lines) ==> line in lines
  {
    hide ClosesFence;
    if lines != [] && !ClosesFence(lines[0]) {
      AfterFenceIsWithin(lines[1..]);
    }
  }

  // ----- What is kept ------------------------------------------------------

  /** Prose around a fence stays: what is in front of it, and what is behind its end. */
  lemma {:induction false} ProseAroundStays(before: seq<string>, opener: string, inner: seq<string>, closer: string, rest: seq<string>)
    requires NoFence(before) && OpensFence(opener) && ClosesFence(closer)
    requires forall i :: 0 <= i < |inner| ==> !ClosesFence(inner[i])
    ensures Kept(before + [opener] + inner + [closer] + rest) == before + Kept(rest)
    ensures Kept(before + [opener] + inner) == before
    decreases |before|
  {
    hide OpensFence, ClosesFence;
    var closed, left := before + [opener] + inner + [closer] + rest, before + [opener] + inner;
    if before == [] {
      assert closed[1..] == inner + [closer] + rest && left[1..] == inner;
      AfterCloser(inner, closer, rest);
      assert [] + Kept(rest) == Kept(rest);
    } else {
      assert closed[1..] == before[1..] + [opener] + inner + [closer] + rest;
      assert left[1..] == before[1..] + [opener] + inner;
      ProseAroundStays(before[1..], opener, inner, closer, rest);
      assert before == [before[0]] + before[1..];
    }
  }

  lemma {:induction false} AfterCloser(inner: seq<string>, closer: string, rest: seq<string>)
    requires ClosesFence(closer) && forall i :: 0 <= i < |inner| ==> !ClosesFence(inner[i])
    ensures AfterFence(inner + [closer] + rest) == rest
    ensures AfterFence(inner) == []
  {
    hide ClosesFence;
    var all := inner + [closer] + rest;
    if inner == [] {
      assert all[1..] == rest;
    } else {
      assert all[1..] == inner[1..] + [closer] + rest;
      AfterCloser(inner[1..], closer, rest);
    }
  }

  function Ticks(n: nat): string {
    if n == 0 then "" else "`" + Ticks(n - 1)
  }

  predicate AreBlanks(s: string) {
    forall i :: 0 <= i < |s| ==> s[i] == ' ' || s[i] == '\t'
  }

  lemma {:induction false} TicksSkipped(text: string) returns (n: nat)
    ensures text == Ticks(n) + SkipTicks(text) && (SkipTicks(text) != "" ==> SkipTicks(text)[0] != '`')
    ensures |Ticks(n)| == n && forall i :: 0 <= i < n ==> text[i] == '`'
  {
    n := 0;
    if text != "" && text[0] == '`' {
      n := TicksSkipped(text[1..]);
      n := n + 1;
      assert text == [text[0]] + text[1..];
    }
  }

  lemma {:induction false} TicksAreSkipped(n: nat, rest: string)
    requires rest != "" ==> rest[0] != '`'
    ensures SkipTicks(Ticks(n) + rest) == rest && |Ticks(n)| == n
    ensures forall i :: 0 <= i < n ==> Ticks(n)[i] == '`'
  {
    if n > 0 {
      TicksAreSkipped(n - 1, rest);
      assert (Ticks(n) + rest)[1..] == Ticks(n - 1) + rest;
    } else {
      assert Ticks(0) + rest == rest;
    }
  }

  lemma {:induction false} BlanksSkipped(text: string)
    ensures |SkipBlanks(text)| <= |text| && AreBlanks(text[..|text| - |SkipBlanks(text)|])
    ensures text == text[..|text| - |SkipBlanks(text)|] + SkipBlanks(text)
  {
    if text != "" && (text[0] == ' ' || text[0] == '\t') {
      BlanksSkipped(text[1..]);
      var n := |text| - |SkipBlanks(text)|;
      assert text[..n] == [text[0]] + text[1..][..n - 1];
    }
  }

  lemma {:induction false} BlanksAreSkipped(blanks: string, rest: string)
    requires AreBlanks(blanks) && (rest != "" ==> rest[0] != ' ' && rest[0] != '\t')
    ensures SkipBlanks(blanks + rest) == rest
  {
    if blanks == "" {
      assert blanks + rest == rest;
    } else {
      assert (blanks + rest)[1..] == blanks[1..] + rest;
      BlanksAreSkipped(blanks[1..], rest);
    }
  }

  /** Three or more backticks, then blanks, then `bridge-` in any case. */
  ghost predicate IsOpener(trimmed: string) {
    exists n: nat, blanks, name :: n >= 3 && AreBlanks(blanks) && BeginsWith(name, MARK) && trimmed == Ticks(n) + blanks + name
  }

  lemma MarkIsPlain(name: string)
    requires BeginsWith(name, MARK)
    ensures name != "" && name[0] != '`' && name[0] != ' ' && name[0] != '\t'
  {
    assert Lower(name[0]) == 'b';
  }

  /** A line opens a fence exactly when, white space around it apart, it is of that form. */
  lemma OpensFenceIff(line: string)
    ensures OpensFence(line) <==> IsOpener(Trim(line))
  {
    var trimmed := Trim(line);
    hide Trim;
    if OpensFence(line) {
      OpenerFound(trimmed);
    }
    if IsOpener(trimmed) {
      var n: nat, blanks, name :| n >= 3 && AreBlanks(blanks) && BeginsWith(name, MARK) && trimmed == Ticks(n) + blanks + name;
      OpenerOpens(trimmed, n, blanks, name);
    }
  }

  lemma OpenerFound(trimmed: string)
    requires BeginsWith(trimmed, FENCE) && BeginsWith(SkipBlanks(SkipTicks(trimmed)), MARK)
    ensures IsOpener(trimmed)
  {
    var n := TicksSkipped(trimmed);
    var rest := SkipTicks(trimmed);
    BlanksSkipped(rest);
    var blanks, name := rest[..|rest| - |SkipBlanks(rest)|], SkipBlanks(rest);
    assert n >= 3 by {
      assert Lower(trimmed[0]) == '`' && Lower(trimmed[1]) == '`' && Lower(trimmed[2]) == '`';
    }
    hide SkipTicks, SkipBlanks, Ticks, BeginsWith, AreBlanks;
    assert trimmed == Ticks(n) + blanks + name;
  }

  lemma OpenerOpens(trimmed: string, n: nat, blanks: string, name: string)
    requires n >= 3 && AreBlanks(blanks) && BeginsWith(name, MARK) && trimmed == Ticks(n) + blanks + name
    ensures BeginsWith(trimmed, FENCE) && BeginsWith(SkipBlanks(SkipTicks(trimmed)), MARK)
  {
    MarkIsPlain(name);
    BlanksAreSkipped(blanks, name);
    assert blanks + name != "" && (blanks + name)[0] != '`';
    TicksAreSkipped(n, blanks + name);
    assert trimmed == Ticks(n) + (blanks + name);
    hide SkipTicks, SkipBlanks, Ticks;
  }

  /** A line closes a fence exactly when it begins with three backticks, white space apart. */
  lemma ClosesFenceIff(line: string)
    ensures ClosesFence(line) <==> "```" <= Trim(line)
  {
    hide Trim;
  }

  /** Each of the three line ends does end a line. */
  lemma {:induction false} LineEnds(line: string, text: string)
    requires OneLine(line)
    ensures Lines(line + "\n" + text) == [line] + Lines(text)
    ensures Lines(line + "\r\n" + text) == [line] + Lines(text)
    ensures (text == "" || text[0] != '\n') ==> Lines(line + "\r" + text) == [line] + Lines(text)
  {
    var lf, crlf, cr := line + "\n" + text, line + "\r\n" + text, line + "\r" + text;
    if line == "" {
      assert lf[1..] == text && crlf[2..] == text && cr[1..] == text;
    } else {
      var rest := line[1..];
      assert line == [line[0]] + rest && OneLine(rest);
      LineEnds(rest, text);
      assert lf[1..] == rest + "\n" + text && crlf[1..] == rest + "\r\n" + text && cr[1..] == rest + "\r" + text;
    }
  }
}
