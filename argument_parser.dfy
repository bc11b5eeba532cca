/**
 * Command-line arguments as flag/value pairs. A flag is a dash followed by
 * a character that is neither a digit nor whitespace; anything else is a
 * value. A flag followed by a value maps to it, a flag followed by another
 * flag or by nothing maps to no value (`None`, Java's null), a value not
 * preceded by a flag is ignored, and a repeated flag keeps its last mapping.
 */
module Arguments {
  import opened Wrappers
  import opened Numbers

  type Flags = map<string, Option<string>>

  /** `isFlag`: at least two characters, a dash, then neither a digit nor whitespace. */
  predicate IsFlag(arg: string) {
    |arg| >= 2 && arg[0] == '-' && !IsDigit(arg[1]) && !IsWhitespace(arg[1])
  }

  /** `isValue`: anything that is not a flag. */
  predicate IsValue(arg: string) {
    !IsFlag(arg)
  }

  /** The examples of the `isFlag` documentation. */
  lemma IsFlagExamples()
    ensures IsFlag("-hello") && IsFlag("-@world")
    ensures !IsFlag("-10") && !IsFlag("- hello")
  {
    IsDigitBelowArabic('h');
    IsDigitBelowArabic('@');
    IsDigitBelowArabic('1');
  }

  /** What the flag at index `k` maps to: the next argument when that is a value, otherwise nothing. */
  function ValueAfter(args: seq<string>, k: int): Option<string>
    requires 0 <= k < |args|
  {
    if k + 1 < |args| && IsValue(args[k + 1]) then Some(args[k + 1]) else None
  }

  /** The single pass of `parse` from index `i` on, starting from the flags `m`. */
  function ParseFrom(m: Flags, args: seq<string>, i: nat): Flags
    decreases |args| - i
  {
    if i >= |args| then m
    else if IsFlag(args[i]) then ParseFrom(m[args[i] := ValueAfter(args, i)], args, if ValueAfter(args, i).Some? then i + 2 else i + 1)
    else ParseFrom(m, args, i + 1)
  }

  /** The flags occurring in `args` from index `i` on. */
  function FlagsFrom(args: seq<string>, i: nat): set<string> {
    set k | i <= k < |args| && IsFlag(args[k]) :: args[k]
  }

  /** Parsing adds exactly the flags that occur in the arguments; values never become keys. */
  lemma {:induction false} ParseKeys(m: Flags, args: seq<string>, i: nat)
    ensures ParseFrom(m, args, i).Keys == m.Keys + FlagsFrom(args, i)
    decreases |args| - i
  {
    if i < |args| {
      var next := if IsFlag(args[i]) && ValueAfter(args, i).Some? then i + 2 else i + 1;
      var m' := if IsFlag(args[i]) then m[args[i] := ValueAfter(args, i)] else m;
      ParseKeys(m', args, next);
      assert FlagsFrom(args, i) == (if IsFlag(args[i]) then {args[i]} else {}) + FlagsFrom(args, next) by {
        if next == i + 2 {
          assert !IsFlag(args[i + 1]);
        }
      }
    }
  }

  /** A flag that does not occur from index `i` on keeps its old mapping, or stays absent. */
  lemma {:induction false} ParseUntouched(m: Flags, args: seq<string>, i: nat, f: string)
    requires forall k | i <= k < |args| :: args[k] != f
    ensures f in ParseFrom(m, args, i) <==> f in m
    ensures f in m ==> ParseFrom(m, args, i)[f] == m[f]
    decreases |args| - i
  {
    if i < |args| {
      var next := if IsFlag(args[i]) && ValueAfter(args, i).Some? then i + 2 else i + 1;
      var m' := if IsFlag(args[i]) then m[args[i] := ValueAfter(args, i)] else m;
      ParseUntouched(m', args, next, f);
    }
  }

  /** A flag maps to what follows its last occurrence: the value after it, or nothing. */
  lemma {:induction false} ParseLastWins(m: Flags, args: seq<string>, i: nat, k: int)
    requires i <= k < |args| && IsFlag(args[k])
    requires forall j | k < j < |args| :: args[j] != args[k]
    ensures args[k] in ParseFrom(m, args, i)
    ensures ParseFrom(m, args, i)[args[k]] == ValueAfter(args, k)
    decreases |args| - i
  {
    var next := if IsFlag(args[i]) && ValueAfter(args, i).Some? then i + 2 else i + 1;
    var m' := if IsFlag(args[i]) then m[args[i] := ValueAfter(args, i)] else m;
    if k == i {
      ParseUntouched(m', args, next, args[k]);
    } else {
      assert k != i + 1 || next == i + 1;
      ParseLastWins(m', args, next, k);
    }
  }

  /** `numFlags` after parsing into an empty parser: the number of distinct flags among the arguments. */
  lemma NumFlagsCountsDistinctFlags(args: seq<string>)
    ensures |ParseFrom(map[], args, 0)| == |FlagsFrom(args, 0)|
  {
    ParseKeys(map[], args, 0);
  }

  /** A flag followed by a value maps to that value, and the pass resumes after the value. */
  lemma ParseFlagValue(m: Flags, args: seq<string>, i: nat)
    requires i + 1 < |args| && IsFlag(args[i]) && IsValue(args[i + 1])
    ensures ParseFrom(m, args, i) == ParseFrom(m[args[i] := Some(args[i + 1])], args, i + 2)
  {
  }

  /** A flag followed by another flag, or by nothing, maps to no value. */
  lemma ParseFlagAlone(m: Flags, args: seq<string>, i: nat)
    requires i < |args| && IsFlag(args[i]) && (i + 1 == |args| || IsFlag(args[i + 1]))
    ensures ParseFrom(m, args, i) == ParseFrom(m[args[i] := None], args, i + 1)
  {
  }

  /** The arguments of the demonstration, classified. */
  lemma ExampleArguments()
    ensures IsFlag("-max") && IsFlag("-min") && IsFlag("-@debug") && IsFlag("-f") && IsFlag("-verbose")
    ensures IsValue("false") && IsValue("0") && IsValue("-10") && IsValue("hello") && IsValue("output.txt")
  {
    IsDigitBelowArabic('m');
    IsDigitBelowArabic('1');
    IsDigitBelowArabic('@');
    IsDigitBelowArabic('f');
    IsDigitBelowArabic('v');
  }

  /** The arguments of the class's demonstration. */
  const DemoArgs: seq<string> := ["-max", "false", "-min", "0", "-min", "-10", "hello", "-@debug", "-f", "output.txt", "-verbose"]

  /** The demonstration's first three flags, each with its value. */
  lemma ParseExampleHead()
    ensures ParseFrom(map[], DemoArgs, 0) == ParseFrom(map["-max" := Some("false"), "-min" := Some("-10")], DemoArgs, 6)
  {
    ExampleArguments();
    var m1 := map["-max" := Some("false")];
    var m2 := m1["-min" := Some("0")];
    ParseFlagValue(map[], DemoArgs, 0);
    ParseFlagValue(m1, DemoArgs, 2);
    ParseFlagValue(m2, DemoArgs, 4);
    assert m2["-min" := Some("-10")] == map["-max" := Some("false"), "-min" := Some("-10")];
  }

  /** The rest of the demonstration: a stray value, then three flags. */
  lemma ParseExampleTail(m: Flags)
    ensures ParseFrom(m, DemoArgs, 6) == m["-@debug" := None]["-f" := Some("output.txt")]["-verbose" := None]
  {
    ExampleArguments();
    var m4 := m["-@debug" := None];
    var m5 := m4["-f" := Some("output.txt")];
    assert ParseFrom(m, DemoArgs, 6) == ParseFrom(m, DemoArgs, 7);
    ParseFlagAlone(m, DemoArgs, 7);
    ParseFlagValue(m4, DemoArgs, 8);
    ParseFlagAlone(m5, DemoArgs, 10);
  }

  /** The example of the class's demonstration and its expected output. */
  lemma ParseExample()
    ensures ParseFrom(map[], DemoArgs, 0)
      == map["-max" := Some("false"), "-min" := Some("-10"), "-verbose" := None, "-f" := Some("output.txt"), "-@debug" := None]
  {
    ParseExampleHead();
    ParseExampleTail(map["-max" := Some("false"), "-min" := Some("-10")]);
  }

  lemma ParseIntToStringAll()
    ensures forall n | InInt32(n) :: ParseInt(IntToString(n)) == Some(n)
  {
    forall n | InInt32(n) ensures ParseInt(IntToString(n)) == Some(n) {
      ParseIntToString(n);
    }
  }

  /** The parsed flags, held in a map that `parse` and `getString(flag, backup)` update. */
  class ArgumentParser {
    var flags: Flags

    constructor ()
      ensures flags == map[]
    {
      flags := map[];
    }

    /** `ArgumentParser(args)`: an empty parser that then parses `args`. */
    constructor FromArgs(args: seq<string>)
      ensures flags == ParseFrom(map[], args, 0)
    {
      flags := map[];
      new;
      Parse(args);
    }

    /** `parse`: one pass over the arguments; a value taken by a flag is skipped. */
    method Parse(args: seq<string>)
      modifies this
      ensures flags == ParseFrom(old(flags), args, 0)
    {
      var i := 0;
      while i < |args|
        invariant 0 <= i <= |args|
        invariant ParseFrom(flags, args, i) == ParseFrom(old(flags), args, 0)
        decreases |args| - i
      {
        if IsFlag(args[i]) && i + 1 < |args| && IsValue(args[i + 1]) {
          flags := flags[args[i] := Some(args[i + 1])];
          i := i + 1;
        } else if IsFlag(args[i]) {
          flags := flags[args[i] := None];
        }
        i := i + 1;
      }
    }

    /** `numFlags`. */
    function NumFlags(): (r: nat)
      reads this
      ensures r == |flags.Keys|
    {
      |flags|
    }

    /** `hasFlag`. */
    function HasFlag(flag: string): (r: bool)
      reads this
      ensures r <==> flag in flags
    {
      flag in flags
    }

    /** `hasValue`: false when the flag is absent or maps to nothing. */
    function HasValue(flag: string): (r: bool)
      reads this
      ensures r <==> flag in flags && flags[flag].Some?
      ensures r ==> HasFlag(flag)
    {
      flag in flags && flags[flag].Some?
    }

    /** `getString(flag)`: the flag's value, `None` when it has none. */
    function GetString(flag: string): (r: Option<string>)
      reads this
      ensures r.Some? <==> HasValue(flag)
      ensures r.Some? ==> flags[flag] == r
    {
      if flag in flags then flags[flag] else None
    }

    /**
     * `getString(flag, backup)`: the flag's value if it has one; otherwise
     * `backup` is stored under the flag, even when `backup` is `None`, and
     * returned.
     */
    method GetStringOr(flag: string, backup: Option<string>) returns (r: Option<string>)
      modifies this
      ensures old(HasValue(flag)) ==> r == old(flags)[flag] && flags == old(flags)
      ensures !old(HasValue(flag)) ==> r == backup && flags == old(flags)[flag := backup]
      ensures HasFlag(flag) && flags[flag] == r
    {
      if flag !in flags || flags[flag].None? {
        flags := flags[flag := backup];
      }
      r := flags[flag];
    }

    /**
     * `getInteger(flag, backup)`: `backup` when the flag has no value, the
     * parsed value when it is a 32-bit decimal integer, and 0, not
     * `backup`, when it is not.
     */
    function GetIntegerOr(flag: string, backup: int): (r: int)
      reads this
      ensures !HasValue(flag) ==> r == backup
      ensures HasValue(flag) && ParseInt(flags[flag].value).Some? ==> r == ParseInt(flags[flag].value).value
      ensures HasValue(flag) && ParseInt(flags[flag].value).None? ==> r == 0
      ensures forall n | InInt32(n) && HasValue(flag) && flags[flag].value == IntToString(n) :: r == n
    {
      ParseIntToStringAll();
      if !HasValue(flag) then backup
      else
        match ParseInt(flags[flag].value)
        case Some(n) => n
        case None => 0
    }

    /**
     * `getInteger(flag, backup)` as its documentation describes it: the
     * parsed value when the flag has a value that is a 32-bit decimal
     * integer, and `backup` in every other case.
     */
    function GetIntegerOrBackup(flag: string, backup: int): (r: int)
      reads this
      ensures r != backup ==> HasValue(flag) && ParseInt(flags[flag].value) == Some(r)
      ensures HasValue(flag) && ParseInt(flags[flag].value).Some? ==> r == ParseInt(flags[flag].value).value
      ensures forall n | InInt32(n) && HasValue(flag) && flags[flag].value == IntToString(n) :: r == n
    {
      ParseIntToStringAll();
      if !HasValue(flag) then backup
      else ParseInt(flags[flag].value).GetOr(backup)
    }

    /**
     * `getInteger(flag)`: 0 when the flag has no value, otherwise the parsed
     * value; `None` stands for the `NumberFormatException` it lets escape.
     */
    function GetInteger(flag: string): (r: Option<int>)
      reads this
      ensures !HasValue(flag) ==> r == Some(0)
      ensures HasValue(flag) ==> r == ParseInt(flags[flag].value)
      ensures r.Some? ==> InInt32(r.value)
    {
      if !HasValue(flag) then Some(0) else ParseInt(flags[flag].value)
    }
  }

  /**
   * A value that does not parse makes `getInteger(flag, backup)` return 0
   * where its documentation promises the backup.
   */
  lemma GetIntegerOrIgnoresBackup(p: ArgumentParser)
    requires p.flags == map["-threads" := Some("many")]
    ensures p.GetIntegerOr("-threads", 5) == 0
    ensures p.GetIntegerOrBackup("-threads", 5) == 5
  {
    IsDigitBelowArabic('m');
    assert !AllDigits("many") by {
      assert !IsDigit("many"[0]);
    }
  }
}
