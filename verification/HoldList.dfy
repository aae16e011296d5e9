/** The list file of a hold: numbers written one to a line, appended to what earlier
    holds wrote, read back by a release, and cut off anywhere by a crash. */
module HoldList {
  import opened Basics
  import opened Sets

  type Uin = nat

  function Digit(d: nat): char
    requires d < 10
  {
    '0' + d as char
  }

  predicate IsDigit(c: char)
  {
    '0' <= c <= '9'
  }

  predicate AllDigits(s: string)
  {
    forall i | 0 <= i < |s| :: IsDigit(s[i])
  }

  function Digits(n: nat): (s: string)
    ensures s != [] && AllDigits(s)
  {
    if n < 10 then [Digit(n)] else Digits(n / 10) + [Digit(n % 10)]
  }

  /** `int(line)` for a line of digits. */
  function Value(s: string): nat
    requires AllDigits(s)
  {
    if s == [] then 0 else Value(s[..|s| - 1]) * 10 + (s[|s| - 1] - '0') as nat
  }

  /** `f"{uin}\n"` for each target. */
  function Rendered(us: seq<Uin>): string
  {
    if us == [] then [] else Digits(us[0]) + ['\n'] + Rendered(us[1..])
  }

  /** What one line contributes: lines that are not all digits are skipped. */
  function Number(line: string): set<Uin>
  {
    var s := Strip(line);
    if s != [] && AllDigits(s) then {Value(s)} else {}
  }

  lemma {:induction false} NumberOfDigits(line: string)
    requires AllDigits(line)
    ensures Number(line) == if line == [] then {} else {Value(line)}
  {
    if line != [] { assert IsDigit(line[0]) && IsDigit(line[|line| - 1]); }
  }

  /** The numbers of the lines of `text`, the first of which begins with `cur`. */
  function Parsed(text: string, cur: string): set<Uin>
  {
    if text == [] then Number(cur)
    else if text[0] == '\n' then Number(cur) + Parsed(text[1..], [])
    else Parsed(text[1..], cur + [text[0]])
  }

  function Listed(text: string): set<Uin>
  {
    Parsed(text, [])
  }

  predicate Closed(text: string)
  {
    text == [] || text[|text| - 1] == '\n'
  }

  lemma {:induction false} ValueOfDigits(n: nat)
    ensures Value(Digits(n)) == n
  {
    var s := Digits(n);
    if n < 10 {
      assert s[..0] == [];
      assert Value(s) == Value(s[..0]) * 10 + (s[0] - '0') as nat;
    } else {
      ValueOfDigits(n / 10);
      assert s[..|s| - 1] == Digits(n / 10);
    }
  }

  lemma {:induction false} ParsedLine(line: string, rest: string, cur: string)
    requires forall i | 0 <= i < |line| :: line[i] != '\n'
    ensures Parsed(line + ['\n'] + rest, cur) == Number(cur + line) + Parsed(rest, [])
    decreases |line|
  {
    if line == [] {
      assert line + ['\n'] + rest == ['\n'] + rest;
      assert cur + line == cur;
    } else {
      ParsedLine(line[1..], rest, cur + [line[0]]);
      assert (line + ['\n'] + rest)[1..] == line[1..] + ['\n'] + rest;
      assert cur + [line[0]] + line[1..] == cur + line;
    }
  }

  /** Text written after a complete file adds its own numbers and disturbs none. */
  lemma {:induction false} ParsedAppend(text: string, more: string, cur: string)
    requires if text == [] then cur == [] else text[|text| - 1] == '\n'
    ensures Parsed(text + more, cur) == Parsed(text, cur) + Listed(more)
    decreases |text|
  {
    if text == [] {
      assert text + more == more;
    } else {
      var tail := text[1..];
      assert (text + more)[1..] == tail + more;
      if text[0] == '\n' {
        ParsedAppend(tail, more, []);
      } else {
        ParsedAppend(tail, more, cur + [text[0]]);
      }
    }
  }

  lemma {:induction false} FirstLine(u: Uin, rest: string)
    ensures Listed(Digits(u) + ['\n'] + rest) == {u} + Listed(rest)
  {
    ParsedLine(Digits(u), rest, []);
    assert [] + Digits(u) == Digits(u);
    NumberOfDigits(Digits(u));
    ValueOfDigits(u);
  }

  /** Writing numbers and reading them back gives the same numbers. */
  lemma {:induction false} ListRoundTrip(us: seq<Uin>)
    ensures Listed(Rendered(us)) == Elements(us) && Closed(Rendered(us))
  {
    if us != [] {
      ListRoundTrip(us[1..]);
      FirstLine(us[0], Rendered(us[1..]));
      assert us == [us[0]] + us[1..];
      ElementsCons(us[0], us[1..]);
    }
  }

  /** The complete lines of a text. */
  function Lines(text: string): string
  {
    if Closed(text) then text else Lines(text[..|text| - 1])
  }

  lemma {:induction false} LinesClosed(text: string)
    ensures Closed(Lines(text))
  {
    if !Closed(text) { LinesClosed(text[..|text| - 1]); }
  }

  /** More text leaves the complete lines as they are. */
  lemma {:induction false} LinesGrow(text: string, more: string)
    ensures Listed(Lines(text)) <= Listed(Lines(text + more))
    decreases |more|
  {
    LinesExtend(text, more);
    LinesClosed(text);
    var rest :| Lines(text + more) == Lines(text) + rest;
    ParsedAppend(Lines(text), rest, []);
  }

  lemma {:induction false} LinesExtend(text: string, more: string)
    ensures exists rest :: Lines(text + more) == Lines(text) + rest
    decreases |more|
  {
    if more == [] {
      assert text + more == text && Lines(text) == Lines(text) + [];
    } else if Closed(text + more) {
      LinesPrefix(text);
      var rest :| text == Lines(text) + rest;
      assert text + more == Lines(text) + (rest + more);
    } else {
      LinesExtend(text, more[..|more| - 1]);
      assert (text + more)[..|text + more| - 1] == text + more[..|more| - 1];
    }
  }

  lemma {:induction false} LinesPrefix(text: string)
    ensures exists rest :: text == Lines(text) + rest
  {
    if Closed(text) {
      assert text == Lines(text) + [];
    } else {
      LinesPrefix(text[..|text| - 1]);
      var rest :| text[..|text| - 1] == Lines(text) + rest;
      assert text == Lines(text) + (rest + [text[|text| - 1]]);
    }
  }

  lemma {:induction false} LinesListed(text: string)
    ensures Listed(Lines(text)) <= Listed(text)
  {
    LinesPrefix(text);
    LinesClosed(text);
    var rest :| text == Lines(text) + rest;
    ParsedAppend(Lines(text), rest, []);
  }

  /** A list that is complete up to its last newline keeps every new target. */
  lemma {:induction false} AppendKeepsAll(text: string, us: seq<Uin>)
    requires Closed(text)
    ensures Listed(text + Rendered(us)) == Listed(text) + Elements(us) && Closed(text + Rendered(us))
  {
    ParsedAppend(text, Rendered(us), []);
    ListRoundTrip(us);
  }

  // a list that a crash cut off in the middle of a line

  lemma {:induction false} ValuePrefix(s: string, t: string)
    requires AllDigits(s) && AllDigits(t) && t != []
    ensures AllDigits(s + t) && Value(s + t) >= Value(s) * 10 + Value(t)
    decreases |t|
  {
    var last := |t| - 1;
    assert (s + t)[..|s + t| - 1] == s + t[..last];
    if last > 0 {
      ValuePrefix(s, t[..last]);
      assert Value(s + t) == Value(s + t[..last]) * 10 + (t[last] - '0') as nat;
    } else {
      assert t[..last] == [] && s + t[..last] == s;
    }
  }

  /** The digits of a positive number: no leading zero. */
  predicate Positive(s: string)
  {
    s != [] && AllDigits(s) && s[0] != '0'
  }

  lemma {:induction false} LeadingDigit(u: Uin)
    requires u > 0
    ensures Positive(Digits(u))
  {
    if u >= 10 { LeadingDigit(u / 10); }
  }

  lemma {:induction false} PositiveValue(s: string)
    requires Positive(s)
    ensures Value(s) > 0
  {
    if |s| > 1 { PositiveValue(s[..|s| - 1]); }
  }

  lemma CutBehind(line: string, rest: string, n: nat, more: string, tail: string)
    requires |line| < n <= |line| + 1 + |rest| && rest[..n - |line| - 1] == more + tail && Closed(more)
    ensures (line + ['\n'] + rest)[..n] == line + ['\n'] + more + tail && Closed(line + ['\n'] + more)
  {
    assert (line + ['\n'] + rest)[..n] == line + ['\n'] + rest[..n - |line| - 1];
  }

  /** What a crash leaves of a write: complete lines, and the first digits of a number. */
  lemma {:induction false} CrashLeavesTail(us: seq<Uin>, n: nat) returns (text: string, tail: string)
    requires n <= |Rendered(us)| && forall i | 0 <= i < |us| :: us[i] > 0
    ensures Rendered(us)[..n] == text + tail && Closed(text)
    ensures AllDigits(tail) && (tail != [] ==> Value(tail) > 0)
  {
    if us == [] {
      text, tail := [], [];
    } else {
      var line, rest := Digits(us[0]), Rendered(us[1..]);
      assert Rendered(us) == line + ['\n'] + rest;
      if n <= |line| {
        text, tail := [], line[..n];
        LeadingDigit(us[0]);
        if tail != [] { PositiveValue(tail); }
      } else {
        var more: string;
        more, tail := CrashLeavesTail(us[1..], n - |line| - 1);
        text := line + ['\n'] + more;
        CutBehind(line, rest, n, more, tail);
      }
    }
  }

  lemma OutsideExists(s: set<Uin>) returns (u: Uin)
    ensures u !in s
  {
    u := 0;
    var rest := s;
    while u in s
      invariant rest == set v | v in s && v >= u
      decreases |rest|
    {
      rest := rest - {u};
      u := u + 1;
    }
  }

  /** Appending to a complete file with an unfinished last line of digits loses
      some targets for good: the number runs on from the unfinished one. */
  lemma TornTailLosesTarget(text: string, tail: string) returns (u: Uin)
    requires Closed(text) && tail != [] && AllDigits(tail) && Value(tail) > 0
    ensures u !in Listed(text + tail + Rendered([u]))
  {
    u := OutsideExists(Listed(text));
    ValuePrefix(tail, Digits(u));
    ValueOfDigits(u);
    TornLine(text, tail, u);
  }

  lemma {:induction false} TornLine(text: string, tail: string, u: Uin)
    requires Closed(text) && AllDigits(tail)
    ensures AllDigits(tail + Digits(u))
    ensures Listed(text + tail + Rendered([u])) == Listed(text) + {Value(tail + Digits(u))}
  {
    var line := tail + Digits(u);
    assert Rendered([u]) == Digits(u) + ['\n'] + Rendered([]);
    assert text + tail + Rendered([u]) == text + (line + ['\n']);
    ParsedAppend(text, line + ['\n'], []);
    OneLine(line);
  }

  lemma {:induction false} OneLine(line: string)
    requires AllDigits(line) && line != []
    ensures Listed(line + ['\n']) == {Value(line)}
  {
    assert line + ['\n'] + [] == line + ['\n'] && [] + line == line;
    ParsedLine(line, [], []);
    NumberOfDigits(line);
    NumberOfDigits([]);
  }

  /** A file that hold has written, cut off anywhere, keeps every later target if
      and only if it does not end inside a number. */
  lemma {:induction false} ListSafeIff(text: string, tail: string)
    requires Closed(text) && AllDigits(tail) && (tail != [] ==> Value(tail) > 0)
    ensures tail == [] <==> forall us: seq<Uin> :: Elements(us) <= Listed(text + tail + Rendered(us))
  {
    if tail == [] {
      assert text + tail == text;
      forall us: seq<Uin> ensures Elements(us) <= Listed(text + tail + Rendered(us)) {
        AppendKeepsAll(text, us);
      }
    } else {
      var u := TornTailLosesTarget(text, tail);
      assert u in Elements([u]);
    }
  }

  // ----- reading

  /** The comprehension over the lines of the list file. */
  method ReadList(text: string) returns (listed: set<Uin>)
    ensures listed == Listed(text)
  {
    listed := {};
    var cur: string := [];
    for i := 0 to |text|
      invariant Listed(text) == listed + Parsed(text[i..], cur)
    {
      assert text[i..][1..] == text[i + 1..];
      if text[i] == '\n' {
        listed := listed + Number(cur);
        cur := [];
      } else {
        cur := cur + [text[i]];
      }
    }
    assert text[|text|..] == [];
    listed := listed + Number(cur);
  }
}
