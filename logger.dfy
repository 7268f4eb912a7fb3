/** Placeholder substitution of `logMessage`: five find-first-and-replace
    steps, in the order time, level, file, line number, message, each one
    working on the string the previous one produced. */
module Logger {
  import opened Text
  import opened Levels
  import opened Clock

  const TimeToken: string := "{time}"
  const LevelToken: string := "{level}"
  const FileToken: string := "{file}"
  const LineToken: string := "{lineNumber}"
  const MsgToken: string := "{msg}"

  /** The format `main` uses when none is given on the command line. */
  const DefaultFormat: string := "{time}-{level}-{file}:{lineNumber}-{msg}"

  /** The line `logMessage` writes (without the line break), given the text
      of the current time. */
  function Render(fmt: string, time: string, level: LogLevel, file: string, lineNumber: int, message: string): (r: string)
    ensures (!Contains(fmt, TimeToken) && !Contains(fmt, LevelToken) && !Contains(fmt, FileToken) &&
             !Contains(fmt, LineToken) && !Contains(fmt, MsgToken)) ==> r == fmt
  {
    var afterTime := ReplaceFirst(fmt, TimeToken, time);
    var afterLevel := ReplaceFirst(afterTime, LevelToken, LevelString(level));
    var afterFile := ReplaceFirst(afterLevel, FileToken, file);
    var afterLine := ReplaceFirst(afterFile, LineToken, IntToDecimal(lineNumber));
    ReplaceFirst(afterLine, MsgToken, message)
  }

  /** `logMessage` up to the write: a local copy of the format is searched
      and updated in place five times, each replacement removing exactly as
      many characters as its placeholder has (6, 7, 6, 12 and 5). The clock
      is read, through `getCurrentTime`, only when `{time}` is present. */
  method LogMessage(fmt: string, dateTime: string, epochMillis: nat, level: LogLevel,
                    file: string, lineNumber: int, message: string)
    returns (output: string)
    ensures output == Render(fmt, Timestamp(dateTime, epochMillis), level, file, lineNumber, message)
  {
    output := fmt;
    ghost var before := output;

    var pos := FindFirst(output, TimeToken);
    if pos.Some? {
      output := ReplaceAt(output, pos.value, 6, Timestamp(dateTime, epochMillis));
    }
    assert output == ReplaceFirst(before, TimeToken, Timestamp(dateTime, epochMillis));
    before := output;

    pos := FindFirst(output, LevelToken);
    if pos.Some? {
      output := ReplaceAt(output, pos.value, 7, LevelString(level));
    }
    assert output == ReplaceFirst(before, LevelToken, LevelString(level));
    before := output;

    pos := FindFirst(output, FileToken);
    if pos.Some? {
      output := ReplaceAt(output, pos.value, 6, file);
    }
    assert output == ReplaceFirst(before, FileToken, file);
    before := output;

    pos := FindFirst(output, LineToken);
    if pos.Some? {
      output := ReplaceAt(output, pos.value, 12, IntToDecimal(lineNumber));
    }
    assert output == ReplaceFirst(before, LineToken, IntToDecimal(lineNumber));
    before := output;

    pos := FindFirst(output, MsgToken);
    if pos.Some? {
      output := ReplaceAt(output, pos.value, 5, message);
    }
    assert output == ReplaceFirst(before, MsgToken, message);
  }

  // ---------------------------------------------------------------------------
  // Placeholders do not overlap

  /** A placeholder: an opening brace, a name without braces, a closing brace. */
  predicate BraceToken(t: string) {
    |t| >= 2 && t[0] == '{' && t[|t| - 1] == '}' &&
    forall i :: 0 < i < |t| - 1 ==> t[i] != '{' && t[i] != '}'
  }

  lemma PlaceholdersAreBraceTokens()
    ensures BraceToken(TimeToken) && BraceToken(LevelToken) && BraceToken(FileToken)
    ensures BraceToken(LineToken) && BraceToken(MsgToken)
  {
  }

  /** An occurrence of a placeholder cannot begin strictly inside another. */
  lemma StartsDoNotNest(s: string, a: string, p: int, b: string, q: int)
    requires BraceToken(a) && BraceToken(b) && OccursAt(s, a, p) && OccursAt(s, b, q)
    ensures !(p < q < p + |a|)
  {
    CharOfOccurrence(s, b, q, 0);
    CharOfOccurrence(s, a, p, q - p);
  }

  lemma CharOfOccurrence(s: string, t: string, p: int, k: int)
    requires OccursAt(s, t, p)
    ensures 0 <= k < |t| ==> t[k] == s[p + k]
  {
    if 0 <= k < |t| {
      assert s[p..p + |t|][k] == s[p + k];
    }
  }

  /** Two placeholders found at the same place are the same placeholder. */
  lemma SameStartSameToken(s: string, a: string, p: int, b: string, q: int)
    requires BraceToken(a) && BraceToken(b) && OccursAt(s, a, p) && OccursAt(s, b, q)
    ensures p == q ==> a == b
  {
    var m := if |a| <= |b| then |a| - 1 else |b| - 1;
    assert a[m] == s[p + m] by { assert s[p..p + |a|][m] == s[p + m]; }
    assert b[m] == s[q + m] by { assert s[q..q + |b|][m] == s[q + m]; }
  }

  /** Occurrences of two different placeholders are disjoint. */
  lemma DistinctPlaceholdersDisjoint(s: string, a: string, p: int, b: string, q: int)
    requires BraceToken(a) && BraceToken(b) && a != b
    requires OccursAt(s, a, p) && OccursAt(s, b, q)
    ensures p + |a| <= q || q + |b| <= p
  {
    StartsDoNotNest(s, a, p, b, q);
    StartsDoNotNest(s, b, q, a, p);
    SameStartSameToken(s, a, p, b, q);
  }

  /** Replacing the first occurrence of one placeholder leaves every other
      placeholder that was present still present. */
  lemma ReplaceFirstKeepsOtherPlaceholder(s: string, token: string, repl: string, other: string)
    requires BraceToken(token) && BraceToken(other) && token != other
    requires Contains(s, other)
    ensures Contains(ReplaceFirst(s, token, repl), other)
  {
    var q :| 0 <= q <= |s| && OccursAt(s, other, q);
    if Contains(s, token) {
      FirstOccurrenceExists(s, token);
      var p :| IsFirstOccurrence(s, token, p);
      DistinctPlaceholdersDisjoint(s, token, p, other, q);
      if q + |other| <= p {
        KeepsTextBefore(s, token, repl, p, other, q);
      } else {
        KeepsTextAfter(s, token, repl, p, other, q);
      }
    }
  }

  // ---------------------------------------------------------------------------
  // What rendering promises

  /** A template with none of the five placeholders is written verbatim,
      whatever the record holds. */
  lemma RenderWithoutPlaceholders(fmt: string, time: string, level: LogLevel, file: string, lineNumber: int, message: string)
    requires !Contains(fmt, TimeToken) && !Contains(fmt, LevelToken) && !Contains(fmt, FileToken)
    requires !Contains(fmt, LineToken) && !Contains(fmt, MsgToken)
    ensures Render(fmt, time, level, file, lineNumber, message) == fmt
  {
  }

  /** The message is substituted last and never searched again: whenever the
      template has a `{msg}`, the message text appears in the output exactly
      as given, whatever placeholders the time, the file name or the message
      itself contain. */
  lemma MessageAppearsVerbatim(fmt: string, time: string, level: LogLevel, file: string, lineNumber: int, message: string)
    requires Contains(fmt, MsgToken)
    ensures Contains(Render(fmt, time, level, file, lineNumber, message), message)
  {
    PlaceholdersAreBraceTokens();
    var afterTime := ReplaceFirst(fmt, TimeToken, time);
    ReplaceFirstKeepsOtherPlaceholder(fmt, TimeToken, time, MsgToken);
    var afterLevel := ReplaceFirst(afterTime, LevelToken, LevelString(level));
    ReplaceFirstKeepsOtherPlaceholder(afterTime, LevelToken, LevelString(level), MsgToken);
    var afterFile := ReplaceFirst(afterLevel, FileToken, file);
    ReplaceFirstKeepsOtherPlaceholder(afterLevel, FileToken, file, MsgToken);
    var afterLine := ReplaceFirst(afterFile, LineToken, IntToDecimal(lineNumber));
    ReplaceFirstKeepsOtherPlaceholder(afterFile, LineToken, IntToDecimal(lineNumber), MsgToken);
    FirstOccurrenceExists(afterLine, MsgToken);
    var p :| IsFirstOccurrence(afterLine, MsgToken, p);
    var r := ReplaceFirst(afterLine, MsgToken, message);
    ReplaceFirstAtFirstOccurrence(afterLine, MsgToken, message, p);
    SliceOfAppend(afterLine[..p], message + afterLine[p + |MsgToken|..], 0, |message|);
    assert OccursAt(r, message, p);
  }

  /** Replacing a placeholder that follows brace-free text replaces the one
      right after that text. */
  lemma ReplaceAfterPlainText(a: string, token: string, b: string, repl: string)
    requires '{' !in a && |token| > 0 && token[0] == '{'
    ensures ReplaceFirst(a + (token + b), token, repl) == a + (repl + b)
  {
    var s := a + (token + b);
    FirstAfterPlainText(a, token, b);
    ReplaceFirstAtFirstOccurrence(s, token, repl, |a|);
    SplitAroundToken(a, token, b);
  }

  /** The first occurrence of a placeholder after brace-free text is the one
      right after it. */
  lemma FirstAfterPlainText(a: string, token: string, b: string)
    requires '{' !in a && |token| > 0 && token[0] == '{'
    ensures IsFirstOccurrence(a + (token + b), token, |a|)
  {
    var s := a + (token + b);
    forall j | 0 <= j < |a|
      ensures !OccursAt(s, token, j)
    {
      assert s[j..j + |token|][0] == a[j];
    }
    SliceOfAppend(a, token + b, 0, |token|);
    assert (token + b)[0..|token|] == token;
  }

  lemma SplitAroundToken(a: string, token: string, b: string)
    ensures var s := a + (token + b);
      s[..|a|] == a && s[|a| + |token|..] == b
  {
    PrefixOfAppend(a, token + b);
    SuffixOfAppend(a + token, b);
    assert a + (token + b) == (a + token) + b;
  }

  /** A placeholder at the very start is the one replaced. */
  lemma ReplaceAtStart(token: string, rest: string, repl: string)
    requires |token| > 0 && token[0] == '{'
    ensures ReplaceFirst(token + rest, token, repl) == repl + rest
  {
    ReplaceAfterPlainText([], token, rest, repl);
    assert [] + (token + rest) == token + rest;
    assert [] + (repl + rest) == repl + rest;
  }

  lemma Regroup(a: string, v: string, separator: string, rest: string)
    ensures a + (v + (separator + rest)) == ((a + v) + separator) + rest
  {
  }

  lemma DecimalHasNoBrace(n: int)
    ensures '{' !in IntToDecimal(n)
  {
    var r := IntToDecimal(n);
    if n >= 0 {
      assert forall i :: 0 <= i < |r| ==> IsDigit(r[i]);
    } else {
      assert r == [r[0]] + r[1..];
    }
  }

  /** With the default format, and a time and file name free of braces, the
      line reads time-LEVEL-file:line-message. */
  lemma RenderDefaultFormat(time: string, level: LogLevel, file: string, lineNumber: int, message: string)
    requires '{' !in time && '{' !in file
    ensures Render(DefaultFormat, time, level, file, lineNumber, message) ==
            time + "-" + LevelString(level) + "-" + file + ":" + IntToDecimal(lineNumber) + "-" + message
  {
    var name := LevelString(level);
    var digits := IntToDecimal(lineNumber);
    assert '{' !in name;
    DecimalHasNoBrace(lineNumber);
    var rest4 := MsgToken + [];
    var rest3 := LineToken + ("-" + rest4);
    var rest2 := FileToken + (":" + rest3);
    var rest1 := LevelToken + ("-" + rest2);
    DefaultFormatShape();
    var f0 := DefaultFormat;
    var f1 := ReplaceFirst(f0, TimeToken, time);
    var f2 := ReplaceFirst(f1, LevelToken, name);
    var f3 := ReplaceFirst(f2, FileToken, file);
    var f4 := ReplaceFirst(f3, LineToken, digits);
    var f5 := ReplaceFirst(f4, MsgToken, message);
    assert Render(DefaultFormat, time, level, file, lineNumber, message) == f5;
    ReplaceBeforeSeparator([], TimeToken, time, "-", rest1);
    var a := [] + time + "-";
    assert f1 == a + rest1;
    ReplaceBeforeSeparator(a, LevelToken, name, "-", rest2);
    a := a + name + "-";
    assert f2 == a + rest2;
    ReplaceBeforeSeparator(a, FileToken, file, ":", rest3);
    a := a + file + ":";
    assert f3 == a + rest3;
    ReplaceBeforeSeparator(a, LineToken, digits, "-", rest4);
    a := a + digits + "-";
    assert f4 == a + rest4;
    ReplaceAfterPlainText(a, MsgToken, [], message);
    assert f5 == a + (message + []);
    assert [] + time == time;
    assert a + (message + []) == time + "-" + name + "-" + file + ":" + digits + "-" + message;
  }

  /** The line `LogMessage` produces with the default format, for a date-time
      text and a file name free of braces. */
  lemma LogMessageDefaultFormat(dateTime: string, epochMillis: nat, level: LogLevel,
                                file: string, lineNumber: int, message: string)
    requires '{' !in dateTime && '{' !in file
    ensures var time := Timestamp(dateTime, epochMillis);
      Render(DefaultFormat, time, level, file, lineNumber, message) ==
      time + "-" + LevelString(level) + "-" + file + ":" + IntToDecimal(lineNumber) + "-" + message
  {
    TimestampHasNoBrace(dateTime, epochMillis);
    RenderDefaultFormat(Timestamp(dateTime, epochMillis), level, file, lineNumber, message);
  }

  /** The default format, one placeholder and one separator at a time. */
  lemma DefaultFormatShape()
    ensures DefaultFormat ==
            [] + (TimeToken + ("-" + (LevelToken + ("-" + (FileToken + (":" + (LineToken + ("-" + (MsgToken + [])))))))))
  {
  }

  /** Replacing a placeholder that follows brace-free text and precedes a
      brace-free separator leaves brace-free text before the rest. */
  lemma ReplaceBeforeSeparator(a: string, token: string, repl: string, separator: string, rest: string)
    requires '{' !in a && '{' !in repl && '{' !in separator && |token| > 0 && token[0] == '{'
    ensures ReplaceFirst(a + (token + (separator + rest)), token, repl) == a + repl + separator + rest
    ensures '{' !in a + repl + separator
  {
    ReplaceAfterPlainText(a, token, separator + rest, repl);
    Regroup(a, repl, separator, rest);
  }

  /** The default line for a concrete record. */
  lemma RenderDefaultFormatExample(time: string)
    requires '{' !in time
    ensures Render(DefaultFormat, time, WARNING, "a.c", 42, "x") == time + "-WARNING-a.c:42-x"
  {
    RenderDefaultFormat(time, WARNING, "a.c", 42, "x");
    FortyTwo();
    ExampleTail(time);
  }

  lemma FortyTwo()
    ensures IntToDecimal(42) == "42"
  {
    assert NatToDecimal(4) == "4";
  }

  lemma ExampleTail(time: string)
    ensures time + "-" + "WARNING" + "-" + "a.c" + ":" + "42" + "-" + "x" == time + "-WARNING-a.c:42-x"
  {
    AppendJoined(time, "-", "WARNING", "-WARNING");
    AppendJoined(time, "-WARNING", "-", "-WARNING-");
    AppendJoined(time, "-WARNING-", "a.c", "-WARNING-a.c");
    AppendJoined(time, "-WARNING-a.c", ":", "-WARNING-a.c:");
    AppendJoined(time, "-WARNING-a.c:", "42", "-WARNING-a.c:42");
    AppendJoined(time, "-WARNING-a.c:42", "-", "-WARNING-a.c:42-");
    AppendJoined(time, "-WARNING-a.c:42-", "x", "-WARNING-a.c:42-x");
  }

  lemma AppendJoined(t: string, u: string, v: string, w: string)
    requires u + v == w
    ensures t + u + v == t + w
  {
  }

  /** Where every brace of `s` belongs to an occurrence of `a` or of `b`, no
      other placeholder occurs in `s`. */
  lemma AbsentBesidePlaceholders(s: string, token: string, a: string, p: nat, b: string, q: nat)
    requires BraceToken(token) && BraceToken(a) && BraceToken(b) && token != a && token != b
    requires OccursAt(s, a, p) && OccursAt(s, b, q) && p + |a| <= q && q + |b| == |s|
    requires '{' !in s[..p] && '{' !in s[p + |a|..q]
    ensures !Contains(s, token)
  {
    forall j | 0 <= j <= |s|
      ensures !OccursAt(s, token, j)
    {
      if j + |token| <= |s| {
        assert s[j..j + |token|][0] == s[j];
        if j < p {
          assert s[..p][j] == s[j];
        } else if p + |a| <= j < q {
          assert s[p + |a|..q][j - p - |a|] == s[j];
        }
      }
      if OccursAt(s, token, j) {
        DistinctPlaceholdersDisjoint(s, a, p, token, j);
        DistinctPlaceholdersDisjoint(s, b, q, token, j);
      }
    }
  }

  /** Where the only brace of `s` opens a final occurrence of `a`, no other
      placeholder occurs in `s`. */
  lemma AbsentBesidePlaceholder(s: string, token: string, a: string, p: nat)
    requires BraceToken(token) && BraceToken(a) && token != a
    requires OccursAt(s, a, p) && p + |a| == |s| && '{' !in s[..p]
    ensures !Contains(s, token)
  {
    forall j | 0 <= j <= |s|
      ensures !OccursAt(s, token, j)
    {
      if j + |token| <= |s| {
        assert s[j..j + |token|][0] == s[j];
        if j < p {
          assert s[..p][j] == s[j];
        }
      }
      if OccursAt(s, token, j) {
        DistinctPlaceholdersDisjoint(s, a, p, token, j);
      }
    }
  }

  /** Only the first occurrence of a placeholder is replaced. */
  lemma OnlyFirstOccurrenceReplaced(time: string, file: string, lineNumber: int, message: string)
    ensures Render("{level} {level}", time, INFO, file, lineNumber, message) == "INFO {level}"
  {
    var fmt := "{level} {level}";
    var out := "INFO {level}";
    var f1 := ReplaceFirst(fmt, TimeToken, time);
    var f2 := ReplaceFirst(f1, LevelToken, LevelString(INFO));
    var f3 := ReplaceFirst(f2, FileToken, file);
    var f4 := ReplaceFirst(f3, LineToken, IntToDecimal(lineNumber));
    var f5 := ReplaceFirst(f4, MsgToken, message);
    assert Render(fmt, time, INFO, file, lineNumber, message) == f5;
    TwoLevelsLackTime();
    assert f1 == fmt;
    TwoLevelsFirstReplaced();
    assert f2 == out;
    LevelLeftLacksOthers();
    assert f3 == out;
    assert f4 == out;
  }

  lemma TwoLevelsLackTime()
    ensures !Contains("{level} {level}", TimeToken)
  {
    PlaceholdersAreBraceTokens();
    var fmt := LevelToken + (" " + LevelToken);
    assert fmt == "{level} {level}";
    assert OccursAt(fmt, LevelToken, 0) && OccursAt(fmt, LevelToken, 8);
    assert fmt[..0] == [] && fmt[7..8] == " ";
    AbsentBesidePlaceholders(fmt, TimeToken, LevelToken, 0, LevelToken, 8);
  }

  lemma TwoLevelsFirstReplaced()
    ensures ReplaceFirst("{level} {level}", LevelToken, "INFO") == "INFO {level}"
  {
    var fmt := LevelToken + (" " + LevelToken);
    assert fmt == "{level} {level}";
    ReplaceAtStart(LevelToken, " " + LevelToken, "INFO");
    var out := "INFO" + (" " + LevelToken);
    assert out == "INFO {level}";
  }

  lemma LevelLeftLacksOthers()
    ensures !Contains("INFO {level}", FileToken) && !Contains("INFO {level}", LineToken)
    ensures !Contains("INFO {level}", MsgToken)
  {
    PlaceholdersAreBraceTokens();
    var out := "INFO {level}";
    assert OccursAt(out, LevelToken, 5) && out[..5] == "INFO ";
    AbsentBesidePlaceholder(out, FileToken, LevelToken, 5);
    AbsentBesidePlaceholder(out, LineToken, LevelToken, 5);
    AbsentBesidePlaceholder(out, MsgToken, LevelToken, 5);
  }

  /** The file name is searched by the steps after it: a `{msg}` inside it is
      taken for the message placeholder, and the template's own `{msg}` is
      left in the output. */
  lemma FileNameIsRescanned(time: string, lineNumber: int)
    ensures Render("{file}:{msg}", time, DEBUG, "{msg}", lineNumber, "m") == "m:{msg}"
  {
    var fmt := "{file}:{msg}";
    var mid := "{msg}:{msg}";
    var f1 := ReplaceFirst(fmt, TimeToken, time);
    var f2 := ReplaceFirst(f1, LevelToken, LevelString(DEBUG));
    var f3 := ReplaceFirst(f2, FileToken, "{msg}");
    var f4 := ReplaceFirst(f3, LineToken, IntToDecimal(lineNumber));
    var f5 := ReplaceFirst(f4, MsgToken, "m");
    assert Render(fmt, time, DEBUG, "{msg}", lineNumber, "m") == f5;
    FileThenMsgLacksOthers();
    assert f1 == fmt;
    assert f2 == fmt;
    FileBecomesMsg();
    assert f3 == mid;
    TwoMsgsLackLine();
    assert f4 == mid;
    FirstMsgReplaced();
  }

  lemma FileThenMsgLacksOthers()
    ensures !Contains("{file}:{msg}", TimeToken) && !Contains("{file}:{msg}", LevelToken)
  {
    PlaceholdersAreBraceTokens();
    var fmt := FileToken + (":" + MsgToken);
    assert fmt == "{file}:{msg}";
    assert OccursAt(fmt, FileToken, 0) && OccursAt(fmt, MsgToken, 7);
    assert fmt[..0] == [] && fmt[6..7] == ":";
    AbsentBesidePlaceholders(fmt, TimeToken, FileToken, 0, MsgToken, 7);
    AbsentBesidePlaceholders(fmt, LevelToken, FileToken, 0, MsgToken, 7);
  }

  lemma FileBecomesMsg()
    ensures ReplaceFirst("{file}:{msg}", FileToken, "{msg}") == "{msg}:{msg}"
  {
    var fmt := FileToken + (":" + MsgToken);
    assert fmt == "{file}:{msg}";
    ReplaceAtStart(FileToken, ":" + MsgToken, MsgToken);
    var out := MsgToken + (":" + MsgToken);
    assert out == "{msg}:{msg}";
  }

  lemma TwoMsgsLackLine()
    ensures !Contains("{msg}:{msg}", LineToken)
  {
    PlaceholdersAreBraceTokens();
    var s := MsgToken + (":" + MsgToken);
    assert s == "{msg}:{msg}";
    assert OccursAt(s, MsgToken, 0) && OccursAt(s, MsgToken, 6);
    assert s[..0] == [] && s[5..6] == ":";
    AbsentBesidePlaceholders(s, LineToken, MsgToken, 0, MsgToken, 6);
  }

  lemma FirstMsgReplaced()
    ensures ReplaceFirst("{msg}:{msg}", MsgToken, "m") == "m:{msg}"
  {
    var s := MsgToken + (":" + MsgToken);
    assert s == "{msg}:{msg}";
    ReplaceAtStart(MsgToken, ":" + MsgToken, "m");
    var out := "m" + (":" + MsgToken);
    assert out == "m:{msg}";
  }
}
