/** Log levels: the `LogLevel` enumeration, `getLevelString` and
    `getLevelFromString` of the logger. */
module Levels {
  import opened Text

  datatype LogLevel = DEBUG | INFO | WARNING | ERROR

  /** `getLevelString`: the upper-case name of a level. */
  function LevelString(level: LogLevel): (r: string)
    ensures |r| > 0 && forall i :: 0 <= i < |r| ==> IsUpper(r[i])
  {
    match level
    case DEBUG => "DEBUG"
    case INFO => "INFO"
    case WARNING => "WARNING"
    case ERROR => "ERROR"
  }

  /** Each level has its own name. */
  lemma LevelStringInjective(a: LogLevel, b: LogLevel)
    ensures LevelString(a) == LevelString(b) ==> a == b
  {
    if a != b {
      var x, y := LevelString(a), LevelString(b);
      assert |x| != |y| || x[0] != y[0];
    }
  }

  /** The comparisons `getLevelFromString` makes, in its order, against the
      lower-cased input. The last two names are upper case, so they are
      never equal to a lower-cased string: the result is DEBUG exactly for
      "debug" in any casing, and INFO for everything else, "info" in any
      casing included. */
  function ParseLevel(levelStr: string): (r: LogLevel)
    ensures r == DEBUG <==> EqualsIgnoringCase(levelStr, "debug")
    ensures r == INFO <==> !EqualsIgnoringCase(levelStr, "debug")
  {
    ToLowerEqualsIff(levelStr, "debug");
    assert IsUpper("WARNING"[0]) && IsUpper("ERROR"[0]);
    ToLowerNeverHasUpper(levelStr, "WARNING");
    ToLowerNeverHasUpper(levelStr, "ERROR");
    var lowered := ToLower(levelStr);
    if lowered == "info" then INFO
    else if lowered == "debug" then DEBUG
    else if lowered == "WARNING" then WARNING
    else if lowered == "ERROR" then ERROR
    else INFO
  }

  /** `getLevelFromString`: the string, which the source takes by value, is
      lower-cased in place one character at a time, then compared. */
  method LevelFromString(levelStr: string) returns (level: LogLevel)
    ensures level == ParseLevel(levelStr)
  {
    var lowered := levelStr;
    var i := 0;
    while i < |lowered|
      invariant 0 <= i <= |lowered| == |levelStr|
      invariant forall k :: 0 <= k < i ==> lowered[k] == LowerChar(levelStr[k])
      invariant forall k :: i <= k < |lowered| ==> lowered[k] == levelStr[k]
    {
      lowered := lowered[i := LowerChar(lowered[i])];
      i := i + 1;
    }
    assert lowered == ToLower(levelStr);
    level := INFO;
    if lowered == "info" {
      level := INFO;
    } else if lowered == "debug" {
      level := DEBUG;
    } else if lowered == "WARNING" {
      level := WARNING;
    } else if lowered == "ERROR" {
      level := ERROR;
    }
  }

  /** The WARNING and ERROR branches can never be taken. */
  lemma UpperCaseNamesUnreachable(levelStr: string)
    ensures ParseLevel(levelStr) != WARNING && ParseLevel(levelStr) != ERROR
  {
    var r := ParseLevel(levelStr);
    assert r == DEBUG || r == INFO;
  }

  /** Parsing depends only on the input's letters, not on their case. */
  lemma ParseLevelIgnoresCase(a: string, b: string)
    requires EqualsIgnoringCase(a, b)
    ensures ParseLevel(a) == ParseLevel(b)
  {
    assert ToLower(a) == ToLower(b);
  }

  /** Only DEBUG and INFO survive a trip through their names; WARNING and
      ERROR come back as INFO. */
  lemma ParseLevelNameRoundTrip(level: LogLevel)
    ensures ParseLevel(LevelString(level)) == if level == DEBUG then DEBUG else INFO
  {
    if level != DEBUG {
      var name := LevelString(level);
      assert !EqualsIgnoringCase(name, "debug") by {
        if |name| == 5 {
          assert LowerChar(name[0]) != LowerChar("debug"[0]);
        }
      }
    }
  }

  /** The comparison the parser evidently means: every name in lower case.
      Each level is then the result exactly for its own name in any casing. */
  function ParseLevelIntended(levelStr: string): (r: LogLevel)
    ensures r == DEBUG <==> EqualsIgnoringCase(levelStr, "debug")
    ensures r == WARNING <==> EqualsIgnoringCase(levelStr, "warning")
    ensures r == ERROR <==> EqualsIgnoringCase(levelStr, "error")
    ensures r == INFO <==>
      (!EqualsIgnoringCase(levelStr, "debug") && !EqualsIgnoringCase(levelStr, "warning") &&
       !EqualsIgnoringCase(levelStr, "error"))
  {
    ToLowerEqualsIff(levelStr, "debug");
    ToLowerEqualsIff(levelStr, "warning");
    ToLowerEqualsIff(levelStr, "error");
    var lowered := ToLower(levelStr);
    if lowered == "info" then INFO
    else if lowered == "debug" then DEBUG
    else if lowered == "warning" then WARNING
    else if lowered == "error" then ERROR
    else INFO
  }

  /** With lower-case names, the name of every level parses back to that
      level, in any casing. */
  lemma ParseLevelIntendedRoundTrip(levelStr: string, level: LogLevel)
    requires EqualsIgnoringCase(levelStr, LevelString(level))
    ensures ParseLevelIntended(levelStr) == level
  {
    var lowered := ToLower(levelStr);
    var name := ToLower(LevelString(level));
    assert lowered == name;
    match level
    case DEBUG =>
      assert name == "debug";
    case INFO =>
      assert name == "info";
    case WARNING =>
      assert name == "warning";
    case ERROR =>
      assert name == "error";
  }
}
