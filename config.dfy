/** Settings read from the environment (config.py): the boolean and integer
    parsers, the comma-separated list of allowed upload types, and the
    module's settings with their defaults.  The process environment is an
    input here: a variable's value is `Some(text)` when it is set and `None`
    when it is not. */
module Config {
  import opened Wrappers

  /* ---------------- Text helpers ---------------- */

  /** ASCII case folding, the part of `str.lower()` that matters for the
      keywords recognised below. */
  function LowerChar(c: char): char
  {
    if 'A' <= c <= 'Z' then (c as int - 'A' as int + 'a' as int) as char else c
  }

  function Lower(s: string): (r: string)
    ensures |r| == |s|
    ensures forall i :: 0 <= i < |s| ==> r[i] == LowerChar(s[i])
  {
    if |s| == 0 then [] else [LowerChar(s[0])] + Lower(s[1..])
  }

  /* ---------------- get_env_bool (config.py:14-17) ---------------- */

  /** Python's `str(b)` of a boolean. */
  function BoolString(b: bool): string
  {
    if b then "True" else "False"
  }

  predicate Truthy(s: string)
  {
    s == "true" || s == "1" || s == "yes" || s == "on"
  }

  /** The variable's text, or `str(default)` when it is unset, lowered and
      compared against the four accepted spellings. */
  function EnvBool(value: Option<string>, default: bool): (b: bool)
    ensures value.Some? ==> (b <==> Truthy(Lower(value.value)))
    ensures value.None? ==> b == default
  {
    var text := value.GetOr(BoolString(default));
    assert Lower("True") == "true";
    assert Lower("False") == "false";
    Truthy(Lower(text))
  }

  /** Matching ignores case: two spellings that lower to the same text
      give the same answer, whatever the default. */
  lemma EnvBoolIgnoresCase(s: string, t: string, d1: bool, d2: bool)
    requires Lower(s) == Lower(t)
    ensures EnvBool(Some(s), d1) == EnvBool(Some(t), d2)
  {
  }

  /** A set variable never falls back to the default: only the accepted
      spellings give true; every other text, the empty one included,
      gives false. */
  lemma EnvBoolExamples(upper: string, mixed: string, empty: string, other: string)
    requires upper == "TRUE" && mixed == "On" && empty == "" && other == "enabled"
    ensures EnvBool(Some(upper), false)
    ensures EnvBool(Some(mixed), false)
    ensures !EnvBool(Some(empty), true)
    ensures !EnvBool(Some(other), true)
  {
    assert Lower(upper) == "true";
    assert Lower(mixed) == "on";
    assert Lower(other) == other;
  }

  /* ---------------- Integers (config.py:19-24) ---------------- */

  predicate IsDigit(c: char)
  {
    '0' <= c <= '9'
  }

  predicate AllDigits(s: string)
  {
    forall i :: 0 <= i < |s| ==> IsDigit(s[i])
  }

  /** The integer literals `int()` is modelled to accept: an optional sign
      followed by at least one decimal digit. */
  predicate IntLiteral(s: string)
  {
    if |s| > 0 && (s[0] == '+' || s[0] == '-') then |s| > 1 && AllDigits(s[1..])
    else |s| > 0 && AllDigits(s)
  }

  function DigitValue(c: char): nat
    requires IsDigit(c)
  {
    c as int - '0' as int
  }

  function DigitChar(d: nat): char
    requires d < 10
  {
    ('0' as int + d) as char
  }

  /** The value of a string of decimal digits, most significant first. */
  function DigitsValue(s: string): nat
    requires AllDigits(s)
  {
    if |s| == 0 then 0 else DigitsValue(s[..|s| - 1]) * 10 + DigitValue(s[|s| - 1])
  }

  function ParseInt(s: string): (r: Option<int>)
    ensures r.Some? <==> IntLiteral(s)
  {
    if |s| > 0 && (s[0] == '+' || s[0] == '-') then
      if |s| > 1 && AllDigits(s[1..]) then
        Some(if s[0] == '-' then -(DigitsValue(s[1..]) as int) else DigitsValue(s[1..]))
      else None
    else if |s| > 0 && AllDigits(s) then Some(DigitsValue(s))
    else None
  }

  /** Decimal digits of a natural number, without leading zeros. */
  function NatString(n: nat): (s: string)
    ensures |s| > 0 && AllDigits(s)
  {
    if n < 10 then [DigitChar(n)] else NatString(n / 10) + [DigitChar(n % 10)]
  }

  /** Python's `str(n)` of an integer. */
  function IntString(n: int): string
  {
    if n < 0 then "-" + NatString(-n) else NatString(n)
  }

  lemma {:induction false} DigitsOfNatString(n: nat)
    ensures DigitsValue(NatString(n)) == n
  {
    var s := NatString(n);
    if n >= 10 {
      DigitsOfNatString(n / 10);
      assert s[..|s| - 1] == NatString(n / 10);
    }
  }

  /** `int(str(n)) == n`: printing an integer and parsing it back gives
      the integer. */
  lemma ParseIntString(n: int)
    ensures ParseInt(IntString(n)) == Some(n)
  {
    if n < 0 {
      DigitsOfNatString(-n);
      assert IntString(n)[1..] == NatString(-n);
    } else {
      DigitsOfNatString(n);
      var s := NatString(n);
      assert s[0] != '+' && s[0] != '-' by { assert IsDigit(s[0]); }
    }
  }

  /** The variable's text, or `str(default)` when it is unset, parsed as
      an integer; text that does not parse gives the default. */
  function EnvInt(value: Option<string>, default: int): (n: int)
    ensures value.Some? && IntLiteral(value.value) ==> Some(n) == ParseInt(value.value)
    ensures value.Some? && !IntLiteral(value.value) ==> n == default
    ensures value.None? ==> n == default
  {
    ParseIntString(default);
    match ParseInt(value.GetOr(IntString(default)))
    case Some(parsed) => parsed
    case None => default
  }

  /** Signed literals parse; text with a space, an empty text or a bare
      sign do not. */
  lemma ParseIntExamples(neg: string, pos: string, spaced: string, sign: string)
    requires neg == "-42" && pos == "+7" && spaced == "4 2" && sign == "+"
    ensures ParseInt(neg) == Some(-42)
    ensures ParseInt(pos) == Some(7)
    ensures ParseInt(spaced) == None
    ensures ParseInt("") == None
    ensures ParseInt(sign) == None
  {
    assert neg[1..] == "42";
    assert "42"[..1] == "4";
    assert "4"[..0] == "";
    assert DigitsValue("42") == 42;
    assert pos[1..] == "7";
    assert !IsDigit(spaced[1]);
  }

  /* ---------------- ALLOWED_FILE_TYPES (config.py:33) ---------------- */

  function CountChar(s: string, c: char): nat
  {
    if |s| == 0 then 0 else (if s[0] == c then 1 else 0) + CountChar(s[1..], c)
  }

  /** `s.split(",")`: the pieces between commas, empty pieces included. */
  function Split(s: string): (parts: seq<string>)
    ensures |parts| == CountChar(s, ',') + 1
    ensures forall i :: 0 <= i < |parts| ==> ',' !in parts[i]
  {
    if |s| == 0 then [""]
    else if s[0] == ',' then [""] + Split(s[1..])
    else
      var rest := Split(s[1..]);
      [[s[0]] + rest[0]] + rest[1..]
  }

  /** `",".join(parts)`. */
  function Join(parts: seq<string>): string
    requires |parts| > 0
  {
    if |parts| == 1 then parts[0] else parts[0] + "," + Join(parts[1..])
  }

  /** Joining the pieces with commas gives back the original text. */
  lemma {:induction false} JoinSplit(s: string)
    ensures Join(Split(s)) == s
  {
    if |s| > 0 {
      JoinSplit(s[1..]);
      var rest := Split(s[1..]);
      if s[0] == ',' {
        assert Split(s) == [""] + rest;
        assert Split(s)[1..] == rest;
      } else {
        var parts := Split(s);
        assert parts[0] == [s[0]] + rest[0];
        if |rest| == 1 {
          assert parts == [[s[0]] + rest[0]];
        } else {
          assert parts[1..] == rest[1..];
          assert Join(rest) == rest[0] + "," + Join(rest[1..]);
        }
      }
    }
  }

  lemma {:induction false} SplitPrefix(head: string, tail: string)
    requires ',' !in head
    ensures Split(head + tail) == [head + Split(tail)[0]] + Split(tail)[1..]
  {
    if |head| > 0 {
      SplitPrefix(head[1..], tail);
      assert (head + tail)[1..] == head[1..] + tail;
      assert head[0] != ',' by { assert head[0] in head; }
      assert [head[0]] + (head[1..] + Split(tail)[0]) == head + Split(tail)[0];
    } else {
      assert head + tail == tail;
      assert head + Split(tail)[0] == Split(tail)[0];
      assert Split(tail) == [Split(tail)[0]] + Split(tail)[1..];
    }
  }

  /** Splitting comma-free pieces joined with commas gives back the
      pieces. */
  lemma {:induction false} SplitJoin(parts: seq<string>)
    requires |parts| > 0
    requires forall i :: 0 <= i < |parts| ==> ',' !in parts[i]
    ensures Split(Join(parts)) == parts
  {
    if |parts| == 1 {
      SplitPrefix(parts[0], "");
      assert parts[0] + "" == parts[0];
    } else {
      SplitJoin(parts[1..]);
      var tail := "," + Join(parts[1..]);
      assert Join(parts) == parts[0] + tail;
      SplitPrefix(parts[0], tail);
      assert tail[1..] == Join(parts[1..]);
      assert Split(tail) == [""] + parts[1..];
      assert parts[0] + "" == parts[0];
      assert parts == [parts[0]] + parts[1..];
    }
  }

  const DefaultFileTypes: string := "csv,xlsx,json"

  /** The allowed upload types: the variable's text, or the default list,
      split on commas. */
  function AllowedFileTypes(value: Option<string>): (types: seq<string>)
    ensures |types| > 0
    ensures Join(types) == value.GetOr(DefaultFileTypes)
  {
    JoinSplit(value.GetOr(DefaultFileTypes));
    Split(value.GetOr(DefaultFileTypes))
  }

  /** Unset, the allowed types are csv, xlsx and json. */
  lemma DefaultAllowedTypes()
    ensures AllowedFileTypes(None) == ["csv", "xlsx", "json"]
  {
    var parts := ["csv", "xlsx", "json"];
    assert Join(parts) == DefaultFileTypes;
    assert forall i :: 0 <= i < |parts| ==> ',' !in parts[i];
    SplitJoin(parts);
  }

  /* ---------------- The settings (config.py:26-38) ---------------- */

  datatype Settings = Settings(
    appName: string,
    appVersion: string,
    debug: bool,
    maxUploadSizeMb: int,
    allowedFileTypes: seq<string>,
    databaseUrl: Option<string>,
    apiKey: Option<string>,
    secretKey: Option<string>)

  function Get(env: map<string, string>, key: string): Option<string>
  {
    if key in env then Some(env[key]) else None
  }

  function LoadSettings(env: map<string, string>): Settings
  {
    Settings(
      Get(env, "APP_NAME").GetOr("CSV Data Analyzer"),
      Get(env, "APP_VERSION").GetOr("0.1.0"),
      EnvBool(Get(env, "DEBUG"), false),
      EnvInt(Get(env, "MAX_UPLOAD_SIZE_MB"), 200),
      AllowedFileTypes(Get(env, "ALLOWED_FILE_TYPES")),
      Get(env, "DATABASE_URL"),
      Get(env, "API_KEY"),
      Get(env, "SECRET_KEY"))
  }

  /** With no variable set every setting takes its default. */
  lemma DefaultSettings(env: map<string, string>)
    requires env == map[]
    ensures LoadSettings(env) ==
              Settings("CSV Data Analyzer", "0.1.0", false, 200, ["csv", "xlsx", "json"], None, None, None)
  {
    DefaultAllowedTypes();
  }

  /** An invalid upload limit falls back to 200 megabytes, and the debug
      flag follows the variable whatever its case. */
  lemma SettingsFallbacks(env: map<string, string>)
    requires "MAX_UPLOAD_SIZE_MB" in env && !IntLiteral(env["MAX_UPLOAD_SIZE_MB"])
    requires "DEBUG" in env
    ensures LoadSettings(env).maxUploadSizeMb == 200
    ensures LoadSettings(env).debug <==> Truthy(Lower(env["DEBUG"]))
  {
  }
}
