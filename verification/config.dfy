/** lib/config.ts: the lifetime and cooldown settings, read from environment
    variables with ECMAScript `parseInt(value, 10)` and a default for each. */
module Config {
  import opened Common

  /** `Number.MAX_SAFE_INTEGER`, 2^53 - 1. */
  const MaxSafeInteger: int := 9007199254740991

  /** StrWhiteSpaceChar of ECMA-262: WhiteSpace (tab, vertical tab, form feed, ZWNBSP
      and every Zs space) or LineTerminator (LF, CR, LS, PS). */
  predicate IsStrWhiteSpaceChar(c: char)
  {
    || c == '\t' || c == '\n' || c == '\U{000B}' || c == '\U{000C}' || c == '\r'
    || c == ' ' || c == '\U{00A0}' || c == '\U{1680}' || ('\U{2000}' <= c <= '\U{200A}')
    || c == '\U{2028}' || c == '\U{2029}' || c == '\U{202F}' || c == '\U{205F}'
    || c == '\U{3000}' || c == '\U{FEFF}'
  }

  predicate IsDecimalDigit(c: char)
  {
    '0' <= c <= '9'
  }

  predicate AllDigits(s: string)
  {
    forall i :: 0 <= i < |s| ==> IsDecimalDigit(s[i])
  }

  /** The number of white-space characters at the start of s. */
  function LeadingWhiteSpace(s: string): (n: nat)
    ensures n <= |s|
    ensures forall i :: 0 <= i < n ==> IsStrWhiteSpaceChar(s[i])
    ensures n == |s| || !IsStrWhiteSpaceChar(s[n])
  {
    if s != [] && IsStrWhiteSpaceChar(s[0]) then 1 + LeadingWhiteSpace(s[1..]) else 0
  }

  /** TrimString(s, start): drop the leading white space. */
  function TrimStart(s: string): string
  {
    s[LeadingWhiteSpace(s)..]
  }

  /** The length of the longest prefix made of decimal digits. */
  function DigitPrefixLength(s: string): (n: nat)
    ensures n <= |s|
    ensures forall i :: 0 <= i < n ==> IsDecimalDigit(s[i])
    ensures n == |s| || !IsDecimalDigit(s[n])
  {
    if s != [] && IsDecimalDigit(s[0]) then 1 + DigitPrefixLength(s[1..]) else 0
  }

  /** The mathematical value of a string of decimal digits. */
  function DigitsValue(z: string): nat
    requires AllDigits(z)
  {
    if z == [] then 0 else DigitsValue(z[..|z| - 1]) * 10 + (z[|z| - 1] as int - '0' as int)
  }

  /** `parseInt(input, 10)` (section 19.2.5 of ECMA-262): skip leading white space,
      take an optional sign, then the longest run of decimal digits; no digits is NaN
      (None). Any trailing characters are ignored. */
  function ParseInt(input: string): (r: Option<int>)
    ensures r.None? <==> !StartsWithDigit(StripSign(TrimStart(input)))
    ensures r.Some? && r.value < 0 ==> TrimStart(input)[0] == '-'
  {
    ParseSigned(TrimStart(input))
  }

  /** The text after an optional leading `+` or `-`. */
  function StripSign(s: string): string
  {
    if s != [] && (s[0] == '+' || s[0] == '-') then s[1..] else s
  }

  predicate StartsWithDigit(t: string)
  {
    t != [] && IsDecimalDigit(t[0])
  }

  /** Steps 3 to 17 of `parseInt` with radix 10, after the white space is gone. */
  function ParseSigned(s: string): Option<int>
  {
    var sign := if s != [] && s[0] == '-' then -1 else 1;
    match ParseDigits(StripSign(s))
    case None => None
    case Some(v) => Some(sign * v)
  }

  /** The value of the longest run of leading decimal digits, or None when there is none. */
  function ParseDigits(t: string): (r: Option<nat>)
    ensures r.None? <==> !StartsWithDigit(t)
  {
    var end := DigitPrefixLength(t);
    if end == 0 then None
    else
      assert AllDigits(t[..end]);
      Some(DigitsValue(t[..end]))
  }

  /** `parseEnvInt(envVar, defaultValue)`: the default for an unset or empty variable
      and for one that parses to NaN, otherwise the parsed value, zero and negative
      values included. */
  function ParseEnvInt(envVar: Option<string>, defaultValue: int): (r: int)
    ensures Falsy(envVar) ==> r == defaultValue
    ensures !Falsy(envVar) && ParseInt(envVar.value).None? ==> r == defaultValue
    ensures !Falsy(envVar) && ParseInt(envVar.value).Some? ==> r == ParseInt(envVar.value).value
  {
    if Falsy(envVar) then defaultValue
    else match ParseInt(envVar.value)
      case None => defaultValue
      case Some(parsed) => parsed
  }

  /** The digit character for 0..9. */
  function DigitChar(d: nat): char
    requires d < 10
  {
    ('0' as int + d) as char
  }

  /** The decimal digits of a natural number, without leading zeros. */
  function Digits(n: nat): string
  {
    if n < 10 then [DigitChar(n)] else Digits(n / 10) + [DigitChar(n % 10)]
  }

  /** `String(n)` for an integer n. */
  function Decimal(n: int): string
  {
    if n < 0 then "-" + Digits(-n) else Digits(n)
  }

  lemma {:induction false} DigitsValueOfDigits(n: nat)
    ensures |Digits(n)| >= 1 && AllDigits(Digits(n))
    ensures DigitsValue(Digits(n)) == n
  {
    if n >= 10 {
      DigitsValueOfDigits(n / 10);
      var d := Digits(n);
      assert d[..|d| - 1] == Digits(n / 10);
    }
  }

  lemma {:induction false} DigitPrefixOfDigits(d: string, rest: string)
    requires AllDigits(d)
    requires rest == [] || !IsDecimalDigit(rest[0])
    ensures DigitPrefixLength(d + rest) == |d|
  {
    if d != [] {
      assert (d + rest)[1..] == d[1..] + rest;
      DigitPrefixOfDigits(d[1..], rest);
    } else {
      assert d + rest == rest;
    }
  }

  /** `parseInt` reads back every integer from its decimal form, whatever follows
      the digits (so `parseInt("12ab", 10)` is 12). */
  lemma ParseIntDecimal(n: int, rest: string)
    requires rest == [] || !IsDecimalDigit(rest[0])
    ensures ParseInt(Decimal(n) + rest) == Some(n)
  {
    if n < 0 {
      var m: nat := -n;
      var d := Digits(m);
      assert Decimal(n) == "-" + d;
      assert Decimal(n) + rest == "-" + (d + rest);
      ParseDigitsOfDigits(m, rest);
      ParseMinus(d + rest, m);
    } else {
      assert Decimal(n) == Digits(n);
      ParseDigitsOfDigits(n, rest);
      ParseUnsigned(Digits(n) + rest, n);
    }
  }

  /** A string that starts with a digit parses to the value of its leading digits. */
  lemma ParseUnsigned(t: string, v: nat)
    requires t != [] && IsDecimalDigit(t[0]) && ParseDigits(t) == Some(v)
    ensures ParseInt(t) == Some(v)
  {
    NoLeadingWhiteSpace(t);
  }

  /** A minus sign in front of digits negates their value. */
  lemma ParseMinus(t: string, v: nat)
    requires ParseDigits(t) == Some(v)
    ensures ParseInt("-" + t) == Some(-(v as int))
  {
    var s := "-" + t;
    assert s[0] == '-' && s[1..] == t;
    NoLeadingWhiteSpace(s);
    assert ParseSigned(s) == Some(-(v as int));
  }

  lemma NoLeadingWhiteSpace(s: string)
    requires s != [] && (s[0] == '-' || s[0] == '+' || IsDecimalDigit(s[0]))
    ensures TrimStart(s) == s
  {
  }

  lemma ParseDigitsOfDigits(m: nat, rest: string)
    requires rest == [] || !IsDecimalDigit(rest[0])
    ensures |Digits(m)| >= 1 && AllDigits(Digits(m))
    ensures ParseDigits(Digits(m) + rest) == Some(m)
  {
    var d := Digits(m);
    DigitsValueOfDigits(m);
    DigitPrefixOfDigits(d, rest);
    assert (d + rest)[..|d|] == d;
  }

  /** The digits in front of a non-digit are the run `ParseDigits` reads. */
  lemma ParseDigitsPrefix(d: string, rest: string)
    requires d != [] && AllDigits(d)
    requires rest == [] || !IsDecimalDigit(rest[0])
    ensures ParseDigits(d + rest) == Some(DigitsValue(d))
  {
    DigitPrefixOfDigits(d, rest);
    assert (d + rest)[..|d|] == d;
  }

  /** A plus sign in front of digits keeps their value. */
  lemma ParsePlus(t: string, v: nat)
    requires ParseDigits(t) == Some(v)
    ensures ParseInt("+" + t) == Some(v)
  {
    var s := "+" + t;
    assert s[0] == '+' && s[1..] == t;
    NoLeadingWhiteSpace(s);
    assert ParseSigned(s) == Some(v);
  }

  /** The optional sign in front of the digits. */
  datatype Sign = NoSign | Plus | Minus

  function SignText(sign: Sign): string
  {
    match sign
    case NoSign => ""
    case Plus => "+"
    case Minus => "-"
  }

  /** `parseInt` reads an optional sign and then any run of digits, leading zeros
      included, up to the first non-digit: "+5" is 5, "007" is 7 and "-0" is 0. */
  lemma {:induction false} ParseIntSignedDigits(sign: Sign, d: string, rest: string)
    requires d != [] && AllDigits(d)
    requires rest == [] || !IsDecimalDigit(rest[0])
    ensures ParseInt(SignText(sign) + (d + rest)) ==
      Some(if sign == Minus then -(DigitsValue(d) as int) else DigitsValue(d) as int)
  {
    var t := d + rest;
    ParseDigitsPrefix(d, rest);
    match sign
    case NoSign =>
      assert SignText(sign) + t == t && t[0] == d[0];
      ParseUnsigned(t, DigitsValue(d));
    case Plus =>
      ParsePlus(t, DigitsValue(d));
    case Minus =>
      ParseMinus(t, DigitsValue(d));
  }

  /** Leading white space does not change what `parseInt` reads. */
  lemma {:induction false} ParseIntSkipsWhiteSpace(ws: string, s: string)
    requires forall i :: 0 <= i < |ws| ==> IsStrWhiteSpaceChar(ws[i])
    ensures ParseInt(ws + s) == ParseInt(s)
  {
    TrimStartSkips(ws, s);
  }

  lemma {:induction false} TrimStartSkips(ws: string, s: string)
    requires forall i :: 0 <= i < |ws| ==> IsStrWhiteSpaceChar(ws[i])
    ensures TrimStart(ws + s) == TrimStart(s)
  {
    LeadingWhiteSpaceSkips(ws, s);
    assert (ws + s)[|ws| + LeadingWhiteSpace(s)..] == s[LeadingWhiteSpace(s)..];
  }

  lemma {:induction false} LeadingWhiteSpaceSkips(ws: string, s: string)
    requires forall i :: 0 <= i < |ws| ==> IsStrWhiteSpaceChar(ws[i])
    ensures LeadingWhiteSpace(ws + s) == |ws| + LeadingWhiteSpace(s)
  {
    if ws != [] {
      assert (ws + s)[0] == ws[0];
      assert (ws + s)[1..] == ws[1..] + s;
      LeadingWhiteSpaceSkips(ws[1..], s);
    } else {
      assert ws + s == s;
    }
  }

  /** A value with no digit after the white space and the optional sign is NaN, and
      falls back to the default, whatever the default is. */
  lemma ParseEnvIntNaN(s: string, defaultValue: int)
    requires !StartsWithDigit(StripSign(TrimStart(s)))
    ensures ParseEnvInt(Some(s), defaultValue) == defaultValue
  {
  }

  /** Every integer written in an environment variable is kept as it is, zero and
      negative values included, whatever the default. */
  lemma ParseEnvIntKeepsIntegers(n: int, rest: string, defaultValue: int)
    requires rest == [] || !IsDecimalDigit(rest[0])
    ensures ParseEnvInt(Some(Decimal(n) + rest), defaultValue) == n
  {
    ParseIntDecimal(n, rest);
    assert Decimal(n) != [];
  }

  /** The four NEXT_PUBLIC_* variables the settings are read from. */
  datatype Environment = Environment(
    messageTtlMs: Option<string>,
    roomTtlMs: Option<string>,
    endpointCreationCooldownSeconds: Option<string>,
    messageSendCooldownSeconds: Option<string>)

  function MessageTtlMs(env: Environment): int
  {
    ParseEnvInt(env.messageTtlMs, 60 * 1000)
  }

  function ClientMessageTtlMs(env: Environment): int
  {
    MessageTtlMs(env)
  }

  /** The client aliases equal the server values whatever the environment holds. */
  lemma ClientAliases(env: Environment)
    ensures ClientMessageTtlMs(env) == MessageTtlMs(env)
    ensures ClientMessageFadeStartMs(env) == MessageFadeStartMs(env)
  {
  }

  /** When messages start to fade: one second before they expire, or never for a
      non-positive lifetime. */
  function FadeStart(ttl: int): (r: int)
    ensures ttl > 0 ==> r == ttl - 1000 && r < ttl
    ensures ttl <= 0 ==> r == MaxSafeInteger
  {
    if ttl > 0 then ttl - 1000 else MaxSafeInteger
  }

  function MessageFadeStartMs(env: Environment): int
  {
    FadeStart(MessageTtlMs(env))
  }

  function ClientMessageFadeStartMs(env: Environment): int
  {
    MessageFadeStartMs(env)
  }

  function RoomTtlMs(env: Environment): int
  {
    ParseEnvInt(env.roomTtlMs, 0)
  }

  function EndpointCreationCooldownSeconds(env: Environment): int
  {
    ParseEnvInt(env.endpointCreationCooldownSeconds, 10)
  }

  function MessageSendCooldownSeconds(env: Environment): int
  {
    ParseEnvInt(env.messageSendCooldownSeconds, 2)
  }

  /** With nothing set, the settings take their defaults, and the client aliases
      take the same values. */
  lemma Defaults(env: Environment)
    requires Falsy(env.messageTtlMs) && Falsy(env.roomTtlMs)
    requires Falsy(env.endpointCreationCooldownSeconds) && Falsy(env.messageSendCooldownSeconds)
    ensures MessageTtlMs(env) == 60000 && ClientMessageTtlMs(env) == 60000
    ensures MessageFadeStartMs(env) == 59000 && ClientMessageFadeStartMs(env) == 59000
    ensures RoomTtlMs(env) == 0
    ensures EndpointCreationCooldownSeconds(env) == 10
    ensures MessageSendCooldownSeconds(env) == 2
  {
  }

  /** A lifetime written in NEXT_PUBLIC_MESSAGE_TTL_MS is used as it is, and the fade
      starts one second before it; a lifetime below one second gives a negative
      fade start (500 gives -500). */
  lemma MessageTtlFromEnvironment(n: int, env: Environment)
    requires env.messageTtlMs == Some(Decimal(n))
    ensures MessageTtlMs(env) == n
    ensures MessageFadeStartMs(env) == if n > 0 then n - 1000 else MaxSafeInteger
    ensures n == 500 ==> MessageFadeStartMs(env) == -500
  {
    ParseEnvIntKeepsIntegers(n, "", 60 * 1000);
    assert Decimal(n) + "" == Decimal(n);
  }
}
