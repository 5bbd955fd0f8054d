/** The bencoded error list of the DHT protocol, as a printer and as the regular expression that reads it. */
module ErrorList {
  import opened Bytes

  datatype Error = Error(code: int, message: string)

  const INT64_MAX := 0x7fff_ffff_ffff_ffff

  function Decimal(n: nat): (s: string)
    ensures s != "" && forall i | 0 <= i < |s| :: IsDigit(s[i])
  {
    var digit := ('0' as int + n % 10) as char;
    if n < 10 then [digit] else Decimal(n / 10) + [digit]
  }

  /** The number that digits spell. */
  function Value(s: string): nat
    requires forall i | 0 <= i < |s| :: IsDigit(s[i])
  {
    if s == "" then 0 else
    assert IsDigit(s[|s| - 1]);
    10 * Value(s[..|s| - 1]) + (s[|s| - 1] as int - '0' as int)
  }

  lemma {:induction false} DecimalSpells(n: nat)
    ensures Value(Decimal(n)) == n
  {
    if n >= 10 {
      DecimalSpells(n / 10);
      var s := Decimal(n);
      assert s[..|s| - 1] == Decimal(n / 10);
    }
  }

  /** `fmt.Sprintf("li%de%d:%se", ...)`. */
  function Print(e: Error): string {
    var code := if e.code < 0 then "-" + Decimal(-e.code) else Decimal(e.code);
    "li" + (code + ("e" + (Decimal(|e.message|) + (":" + (e.message + "e")))))
  }

  // The regular expression li([0-9]+)e([0-9]+):(.+)e, leftmost match, greedy groups.

  function DigitRun(s: string): (n: nat)
    ensures n <= |s| && (forall i | 0 <= i < n :: IsDigit(s[i])) && (n < |s| ==> !IsDigit(s[n]))
  {
    if s == "" || !IsDigit(s[0]) then 0 else 1 + DigitRun(s[1..])
  }

  predicate OneLine(s: string) {
    forall i | 0 <= i < |s| :: s[i] != '\n'
  }

  /** The longest `(.+)e` at the start of `s`: the last position below `k`, not the first one, that
      holds an 'e' on the first line. */
  function LastE(s: string, k: nat): (r: Option<nat>)
    requires k <= |s|
    ensures r.Some? ==> 1 <= r.value < k && s[r.value] == 'e' && OneLine(s[..r.value])
    ensures forall i | 1 <= i < k && s[i] == 'e' && OneLine(s[..i]) :: r.Some? && i <= r.value
  {
    if k <= 1 then None
    else if s[k - 1] == 'e' && OneLine(s[..k - 1]) then Some(k - 1)
    else LastE(s, k - 1)
  }

  /** The three groups of a match. The digits must be a whole run, since no digit follows them. */
  datatype Groups = Groups(code: string, length: string, message: string)

  predicate Captured(g: Groups) {
    && (forall i | 0 <= i < |g.code| :: IsDigit(g.code[i]))
    && (forall i | 0 <= i < |g.length| :: IsDigit(g.length[i]))
    && g.message != "" && OneLine(g.message)
  }

  /** A run of digits and a given character behind it: the digits and the rest. */
  function NumberThen(s: string, c: char): (r: Option<(string, string)>)
    ensures r.Some? ==> forall i | 0 <= i < |r.value.0| :: IsDigit(r.value.0[i])
  {
    var n := DigitRun(s);
    if n > 0 && n < |s| && s[n] == c then Some((s[..n], s[n + 1..])) else None
  }

  function MatchAt(s: string): (r: Option<Groups>)
    ensures r.Some? ==> Captured(r.value)
  {
    if !("li" <= s) then None else
    match NumberThen(s[2..], 'e')
    case None => None
    case Some((code, s1)) =>
      match NumberThen(s1, ':')
      case None => None
      case Some((length, s2)) =>
        match LastE(s2, |s2|)
        case None => None
        case Some(k) => Some(Groups(code, length, s2[..k]))
  }

  function Find(s: string): (r: Option<Groups>)
    ensures r.Some? ==> Captured(r.value)
  {
    if MatchAt(s).Some? then MatchAt(s)
    else if s == "" then None
    else Find(s[1..])
  }

  /** `Error.UnmarshalBencode`; a number too large for an int is an error. */
  function Parse(s: string): Option<Error> {
    match Find(s)
    case None => None
    case Some(g) =>
      if Value(g.code) > INT64_MAX || Value(g.length) > INT64_MAX then None
      else if |g.message| != Value(g.length) then None
      else Some(Error(Value(g.code), g.message))
  }

  lemma {:induction false} DigitRunOf(digits: string, rest: string)
    requires forall i | 0 <= i < |digits| :: IsDigit(digits[i])
    requires rest == "" || !IsDigit(rest[0])
    ensures DigitRun(digits + rest) == |digits|
  {
    if digits == "" {
      assert digits + rest == rest;
    } else {
      assert (digits + rest)[1..] == digits[1..] + rest;
      DigitRunOf(digits[1..], rest);
    }
  }

  lemma NumberThenReads(n: nat, c: char, rest: string)
    requires !IsDigit(c)
    ensures NumberThen(Decimal(n) + ([c] + rest), c) == Some((Decimal(n), rest))
  {
    var s := Decimal(n) + ([c] + rest);
    DigitRunOf(Decimal(n), [c] + rest);
    assert s[..|Decimal(n)|] == Decimal(n) && s[|Decimal(n)| + 1..] == rest;
  }

  lemma WholeMessageMatched(message: string)
    requires message != "" && OneLine(message)
    ensures LastE(message + "e", |message| + 1) == Some(|message|)
  {
    assert (message + "e")[..|message|] == message;
  }

  lemma PrintedMatches(code: nat, message: string)
    requires message != "" && OneLine(message)
    ensures MatchAt(Print(Error(code, message))) == Some(Groups(Decimal(code), Decimal(|message|), message))
  {
    var s2 := message + "e";
    var s1 := Decimal(|message|) + (":" + s2);
    var s0 := Decimal(code) + ("e" + s1);
    assert ("li" + s0)[2..] == s0;
    NumberThenReads(code, 'e', s1);
    NumberThenReads(|message|, ':', s2);
    WholeMessageMatched(message);
    assert s2[..|message|] == message;
  }

  /** Printing and reading an error gives it back exactly when its code is not negative and its
      message is neither empty nor broken over lines. */
  lemma ErrorSurvivesIff(e: Error)
    requires -INT64_MAX - 1 <= e.code <= INT64_MAX && |e.message| <= INT64_MAX
    ensures Parse(Print(e)) == Some(e) <==> e.code >= 0 && e.message != "" && OneLine(e.message)
  {
    if e.code >= 0 && e.message != "" && OneLine(e.message) {
      PrintedMatches(e.code, e.message);
      DecimalSpells(e.code);
      DecimalSpells(|e.message|);
    }
  }

  /** On the wire: a list of the code and the length-prefixed message. */
  lemma SmallError()
    ensures Print(Error(7, "no")) == "li7e2:noe"
  {
    assert Decimal(7) == "7" && Decimal(2) == "2";
  }

  predicate AllDigits(s: string) {
    forall i | 0 <= i < |s| :: IsDigit(s[i])
  }

  lemma NumberThenSpells(s: string, c: string, digits: string, rest: string)
    requires |c| == 1 && NumberThen(s, c[0]) == Some((digits, rest))
    ensures AllDigits(digits) && s == digits + (c + rest)
  {
    var n := DigitRun(s);
    assert c == [s[n]];
    assert s == s[..n] + ([s[n]] + s[n + 1..]);
  }

  lemma LastESpells(s: string, k: nat)
    requires k < |s| && s[k] == 'e'
    ensures s == s[..k] + ("e" + s[k + 1..])
  {
  }

  lemma Spelled(s: string, s0: string, s1: string, s2: string, g: Groups, tail: string)
    requires s == "li" + s0 && s0 == g.code + ("e" + s1) && s1 == g.length + (":" + s2) && s2 == g.message + ("e" + tail)
    ensures s == "li" + (g.code + ("e" + (g.length + (":" + (g.message + ("e" + tail))))))
  {
  }

  lemma HeadSpells(s: string)
    requires "li" <= s
    ensures s == "li" + s[2..]
  {
  }

  /** The steps of a match. */
  lemma MatchParts(s: string) returns (s1: string, s2: string)
    requires MatchAt(s).Some?
    ensures var g := MatchAt(s).value;
            && "li" <= s && NumberThen(s[2..], 'e') == Some((g.code, s1)) && NumberThen(s1, ':') == Some((g.length, s2))
            && |g.message| < |s2| && g.message == s2[..|g.message|] && s2[|g.message|] == 'e'
  {
    s1 := NumberThen(s[2..], 'e').value.1;
    s2 := NumberThen(s1, ':').value.1;
  }

  lemma MatchSpells(s: string) returns (tail: string)
    requires MatchAt(s).Some?
    ensures var g := MatchAt(s).value;
            && AllDigits(g.code) && AllDigits(g.length)
            && s == "li" + (g.code + ("e" + (g.length + (":" + (g.message + ("e" + tail))))))
  {
    var g, s0 := MatchAt(s).value, s[2..];
    var s1, s2 := MatchParts(s);
    tail := s2[|g.message| + 1..];
    HeadSpells(s);
    NumberThenSpells(s0, "e", g.code, s1);
    NumberThenSpells(s1, ":", g.length, s2);
    LastESpells(s2, |g.message|);
    Spelled(s, s0, s1, s2, g, tail);
  }

  /** Whatever is parsed stands somewhere in the string, with a length that is its own. */
  lemma {:induction false} ParsedStandsThere(s: string) returns (at: nat, code: string, length: string, tail: string)
    requires Parse(s).Some?
    ensures var e := Parse(s).value;
            && at <= |s| && AllDigits(code) && AllDigits(length)
            && Value(code) == e.code && Value(length) == |e.message|
            && s[at..] == "li" + (code + ("e" + (length + (":" + (e.message + ("e" + tail))))))
    decreases |s|
  {
    if MatchAt(s).Some? {
      tail := MatchSpells(s);
      var g := MatchAt(s).value;
      at, code, length := 0, g.code, g.length;
    } else {
      at, code, length, tail := ParsedStandsThere(s[1..]);
      assert s[1..][at..] == s[at + 1..];
      at := at + 1;
    }
  }
}
