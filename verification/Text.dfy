/** The text layer: decimal printing and parsing as operator<<, std::stoi and std::stoul do them, and
    fields separated by a delimiter, read back with std::getline. */
module Text {
  import opened Bytes

  // ---------------------------------------------------------------------------------------------
  // Decimal numbers
  // ---------------------------------------------------------------------------------------------

  const TWO_31: int := 0x8000_0000
  const TWO_64: nat := 0x1_0000_0000_0000_0000

  predicate IsDigit(c: char) {
    '0' <= c <= '9'
  }

  predicate IsSpace(c: char) {
    c == ' ' || c == '\t' || c == '\n' || c == '\r' || c as int == 11 || c as int == 12
  }

  function DigitChar(d: nat): (c: char)
    requires d < 10
    ensures IsDigit(c)
  {
    ('0' as int + d) as char
  }

  function PrintNat(n: nat): string {
    if n < 10 then [DigitChar(n)] else PrintNat(n / 10) + [DigitChar(n % 10)]
  }

  function PrintInt(n: int): string {
    if n < 0 then "-" + PrintNat(Abs(n)) else PrintNat(Abs(n))
  }

  function Abs(n: int): nat {
    if n < 0 then -n else n
  }

  /** The value of a string of digits. */
  function Value(s: string): nat {
    if s == "" then 0
    else Value(s[..|s| - 1]) * 10 + (if IsDigit(s[|s| - 1]) then s[|s| - 1] as int - '0' as int else 0)
  }

  function SkipSpaces(s: string): string {
    if s != "" && IsSpace(s[0]) then SkipSpaces(s[1..]) else s
  }

  function DigitCount(s: string): (k: nat)
    ensures k <= |s|
  {
    if s != "" && IsDigit(s[0]) then 1 + DigitCount(s[1..]) else 0
  }

  /** What strtol and strtoul read: white space, a sign, digits; the rest is ignored. */
  function ParseSigned(s: string): Option<(bool, nat)> {
    var t := SkipSpaces(s);
    var negative := t != "" && t[0] == '-';
    var u := if t != "" && (t[0] == '-' || t[0] == '+') then t[1..] else t;
    var k := DigitCount(u);
    if k == 0 then None else Some((negative, Value(u[..k])))
  }

  /** std::stoi; None stands for an exception. */
  function Stoi(s: string): (r: Option<int>)
    ensures r.Some? ==> -TWO_31 <= r.value < TWO_31
  {
    match ParseSigned(s)
    case None => None
    case Some((negative, n)) =>
      var v: int := if negative then -(n as int) else n as int;
      if -TWO_31 <= v < TWO_31 then Some(v) else None
  }

  /** std::stoul and std::stoull with 64 bits: a negative number is accepted and wraps around. */
  function Stoul(s: string): (r: Option<nat>)
    ensures r.Some? ==> r.value < TWO_64
  {
    match ParseSigned(s)
    case None => None
    case Some((negative, n)) =>
      if n >= TWO_64 then None
      else if negative then Some((TWO_64 - n) % TWO_64)
      else Some(n)
  }

  predicate AllDigits(s: string) {
    forall c | c in s :: IsDigit(c)
  }

  lemma {:induction false} PrintNatDigits(n: nat)
    ensures PrintNat(n) != "" && AllDigits(PrintNat(n)) && Value(PrintNat(n)) == n
  {
    var s := PrintNat(n);
    if n < 10 {
      assert s[..0] == "";
    } else {
      PrintNatDigits(n / 10);
      assert s[..|s| - 1] == PrintNat(n / 10);
    }
  }

  lemma ParsePrintNat(n: nat)
    ensures ParseSigned(PrintNat(n)) == Some((false, n))
    ensures ParseSigned("-" + PrintNat(n)) == Some((true, n))
  {
    var s := PrintNat(n);
    PrintNatDigits(n);
    hide PrintNat, ParseSigned, Value;
    assert "" + "" + s + "" == s && "" + "-" + s + "" == "-" + s;
    ParsedAs(s, "", "", s, "");
    ParsedAs("-" + s, "", "-", s, "");
  }

  /** Reading back a printed number gives the number. */
  lemma NumberRoundTrip(n: nat, i: int)
    ensures n < TWO_64 ==> Stoul(PrintNat(n)) == Some(n)
    ensures -TWO_31 <= i < TWO_31 ==> Stoi(PrintInt(i)) == Some(i)
  {
    hide PrintNat, ParseSigned;
    ParsePrintNat(n);
    ParsePrintNat(Abs(i));
  }

  /** Numbers are printed without leading zeros, a minus only where there is need for it, and no plus. */
  lemma {:induction false} PrintedCanonical(n: nat)
    ensures PrintNat(n)[0] == '0' ==> n == 0 && PrintNat(n) == "0"
    ensures PrintInt(n) == PrintNat(n) && (n > 0 ==> PrintInt(-(n as int)) == "-" + PrintNat(n))
  {
    PrintNatDigits(n);
    if n >= 10 {
      PrintedCanonical(n / 10);
      PrintNatDigits(n / 10);
      assert PrintNat(n)[0] == PrintNat(n / 10)[0];
    }
  }

  function Power10(k: nat): nat {
    if k == 0 then 1 else 10 * Power10(k - 1)
  }

  /** Decimal place values: a digit weighs ten to the number of digits after it. */
  lemma {:induction false} ValueByPlace(c: char, s: string)
    requires IsDigit(c)
    ensures Value([c] + s) == (c as int - '0' as int) * Power10(|s|) + Value(s)
    decreases |s|
  {
    var t := [c] + s;
    var n := |s|;
    if n == 0 {
      assert t[..0] == "" && t[0] == c;
    } else {
      assert t[..n] == [c] + s[..n - 1] && t[n] == s[n - 1];
      ValueByPlace(c, s[..n - 1]);
      TenTimes(c as int - '0' as int, Power10(n - 1));
    }
  }

  lemma TenTimes(d: int, p: int)
    ensures d * p * 10 == d * (10 * p)
  {
  }

  /** How a number can be read at the front of a text: white space, a sign, digits up to the first other
      character. */
  ghost predicate ReadsAs(s: string, spaces: string, sign: string, digits: string, rest: string) {
    && s == spaces + sign + digits + rest
    && (forall c | c in spaces :: IsSpace(c)) && (sign == "" || sign == "+" || sign == "-")
    && digits != "" && AllDigits(digits) && (rest != "" ==> !IsDigit(rest[0]))
  }

  lemma {:induction false} SkipSpacesSplits(spaces: string, t: string)
    requires forall c | c in spaces :: IsSpace(c)
    requires t != "" ==> !IsSpace(t[0])
    ensures SkipSpaces(spaces + t) == t
  {
    if spaces == "" {
      assert spaces + t == t;
    } else {
      assert (spaces + t)[1..] == spaces[1..] + t;
      SkipSpacesSplits(spaces[1..], t);
    }
  }

  lemma {:induction false} DigitCountSplits(digits: string, rest: string)
    requires AllDigits(digits) && (rest != "" ==> !IsDigit(rest[0]))
    ensures DigitCount(digits + rest) == |digits|
  {
    if digits == "" {
      assert digits + rest == rest;
    } else {
      assert (digits + rest)[1..] == digits[1..] + rest;
      DigitCountSplits(digits[1..], rest);
    }
  }

  lemma ParsedAs(s: string, spaces: string, sign: string, digits: string, rest: string)
    requires ReadsAs(s, spaces, sign, digits, rest)
    ensures ParseSigned(s) == Some((sign == "-", Value(digits)))
  {
    assert digits[0] in digits;
    var u := digits + rest;
    var t := sign + u;
    assert t[0] == (if sign == "" then digits[0] else sign[0]) && !IsSpace(t[0]) && (sign == "" ==> IsDigit(t[0]));
    hide Value, SkipSpaces, DigitCount, IsSpace, AllDigits;
    assert s == spaces + t;
    SkipSpacesSplits(spaces, t);
    DigitCountSplits(digits, rest);
    if sign == "" {
      assert t == u;
    } else {
      assert t[1..] == u;
    }
    assert u[..|digits|] == digits;
  }

  lemma {:induction false} SpacesSkipped(s: string) returns (spaces: string)
    ensures s == spaces + SkipSpaces(s) && forall c | c in spaces :: IsSpace(c)
  {
    if s != "" && IsSpace(s[0]) {
      var more := SpacesSkipped(s[1..]);
      spaces := [s[0]] + more;
      assert s == [s[0]] + s[1..];
    } else {
      spaces := "";
    }
  }

  lemma {:induction false} DigitsCounted(s: string)
    ensures var k := DigitCount(s); AllDigits(s[..k]) && (k < |s| ==> !IsDigit(s[k]))
  {
    if s != "" && IsDigit(s[0]) {
      DigitsCounted(s[1..]);
      var k := DigitCount(s[1..]);
      assert s[..k + 1] == [s[0]] + s[1..][..k];
    }
  }

  function SignOf(t: string): string {
    if t != "" && (t[0] == '-' || t[0] == '+') then [t[0]] else ""
  }

  lemma SignSplits(t: string)
    ensures |SignOf(t)| <= |t| && t == SignOf(t) + t[|SignOf(t)|..]
  {
  }

  lemma ParsedHow(s: string) returns (spaces: string, sign: string, digits: string, rest: string)
    requires ParseSigned(s).Some?
    ensures ReadsAs(s, spaces, sign, digits, rest)
  {
    hide SkipSpaces, DigitCount, Value, AllDigits, IsSpace, IsDigit;
    spaces := SpacesSkipped(s);
    var t := SkipSpaces(s);
    sign := SignOf(t);
    SignSplits(t);
    var u := t[|sign|..];
    var k := DigitCount(u);
    DigitsCounted(u);
    digits, rest := u[..k], u[k..];
    assert k > 0;
    Regroup(spaces, sign, u, k);
  }

  lemma Regroup(a: string, b: string, u: string, k: nat)
    requires k <= |u|
    ensures a + (b + u) == a + b + u[..k] + u[k..]
  {
  }

  /** The number that has been read. */
  function Signed(sign: string, digits: string): int {
    if sign == "-" then -(Value(digits) as int) else Value(digits)
  }

  /** std::stoi exactly: the number that the text can be read as, if it fits in an int; otherwise it throws. */
  lemma StoiExactly(s: string, v: int)
    ensures Stoi(s) == Some(v) <==>
            && -0x8000_0000 <= v < 0x8000_0000
            && exists spaces, sign, digits, rest ::
                 ReadsAs(s, spaces, sign, digits, rest) && v == Signed(sign, digits)
  {
    hide ParseSigned, ReadsAs, Value;
    forall spaces, sign, digits, rest | ReadsAs(s, spaces, sign, digits, rest) {
      ParsedAs(s, spaces, sign, digits, rest);
    }
    if ParseSigned(s).Some? {
      var spaces, sign, digits, rest := ParsedHow(s);
    }
  }

  /** std::stoul exactly: the number that the text can be read as, if its digits fit in 64 bits, a negative one
      modulo 2^64; otherwise it throws. */
  lemma StoulExactly(s: string, v: nat)
    ensures Stoul(s) == Some(v) <==>
            exists spaces, sign, digits, rest ::
              && ReadsAs(s, spaces, sign, digits, rest) && Value(digits) < 0x1_0000_0000_0000_0000
              && v == Signed(sign, digits) % 0x1_0000_0000_0000_0000
  {
    hide ParseSigned, ReadsAs, Value;
    forall spaces, sign, digits, rest | ReadsAs(s, spaces, sign, digits, rest) {
      ParsedAs(s, spaces, sign, digits, rest);
    }
    if ParseSigned(s).Some? {
      var spaces, sign, digits, rest := ParsedHow(s);
    }
  }

  lemma PrintedHas(n: int, c: char)
    requires c in PrintInt(n)
    ensures IsDigit(c) || c == '-'
  {
    PrintNatDigits(Abs(n));
  }

  // ---------------------------------------------------------------------------------------------
  // Fields
  // ---------------------------------------------------------------------------------------------

  /** The position of the first c, or the length. */
  function IndexOf(s: string, c: char): (k: nat)
    ensures k <= |s| && (k < |s| ==> s[k] == c) && c !in s[..k]
    ensures k == |s| <==> c !in s
  {
    if s == "" || s[0] == c then 0 else 1 + IndexOf(s[1..], c)
  }

  /** What one getline reads from non-empty input, and what it leaves. */
  function Line(s: string, delimiter: char): string {
    s[..IndexOf(s, delimiter)]
  }

  function Rest(s: string, delimiter: char): string {
    if delimiter in s then s[IndexOf(s, delimiter) + 1..] else ""
  }

  /** std::istringstream as far as getline is concerned. */
  class StringStream {
    const data: string
    var pos: nat

    ghost predicate Valid()
      reads this
    {
      pos <= |data|
    }

    ghost function Remaining(): string
      reads this
      requires Valid()
    {
      data[pos..]
    }

    constructor (data: string)
      ensures Valid() && Remaining() == data
    {
      this.data := data;
      pos := 0;
    }

    /** Fails exactly when no character is left. A delimiter is consumed and not stored; that nothing
        follows it goes unnoticed until the next call, so an empty last field is never read. */
    method GetLine(delimiter: char) returns (ok: bool, line: string)
      requires Valid()
      modifies this
      ensures Valid()
      ensures ok == (old(Remaining()) != "")
      ensures ok ==> line == Line(old(Remaining()), delimiter)
      ensures Remaining() == if ok then Rest(old(Remaining()), delimiter) else ""
    {
      hide Line, Rest;
      line := "";
      if pos == |data| {
        return false, line;
      }
      ghost var s := data[pos..];
      var start := pos;
      while pos < |data| && data[pos] != delimiter
        invariant start <= pos <= |data|
        invariant line == data[start..pos]
        invariant delimiter !in data[start..pos]
      {
        line := line + [data[pos]];
        pos := pos + 1;
      }
      ghost var k := pos - start;
      assert s[..k] == data[start..pos];
      LineAt(s, delimiter, k);
      if pos < |data| {
        pos := pos + 1;
        assert s[k + 1..] == data[pos..];
      }
      return true, line;
    }
  }

  lemma {:induction false} FirstAt(s: string, c: char, k: nat)
    requires k <= |s| && c !in s[..k] && (k < |s| ==> s[k] == c)
    ensures IndexOf(s, c) == k
    ensures k < |s| ==> c in s
    decreases k
  {
    if k > 0 {
      assert s[..k][0] == s[0] && s[1..][..k - 1] == s[..k][1..];
      FirstAt(s[1..], c, k - 1);
    }
  }

  lemma LineAt(s: string, c: char, k: nat)
    requires k <= |s| && c !in s[..k] && (k < |s| ==> s[k] == c)
    ensures Line(s, c) == s[..k] && Rest(s, c) == if k < |s| then s[k + 1..] else ""
  {
    FirstAt(s, c, k);
  }

  /** The fields that getline calls read one after the other until one fails. */
  function Split(s: string, delimiter: char): seq<string>
    decreases |s|
  {
    if s == "" then [] else [Line(s, delimiter)] + Split(Rest(s, delimiter), delimiter)
  }

  method Tokenize(data: string, delimiter: char) returns (tokens: seq<string>)
    ensures tokens == Split(data, delimiter)
  {
    hide Split, Line, Rest, IndexOf;
    var iss := new StringStream(data);
    tokens := [];
    ghost var left := data;
    var more := true;
    while more
      invariant iss.Valid() && iss.Remaining() == left
      invariant Split(data, delimiter) == tokens + Split(left, delimiter)
      invariant !more ==> left == ""
      decreases |left|, more
    {
      var ok, token := iss.GetLine(delimiter);
      if ok {
        SplitStep(left, delimiter);
        left := Rest(left, delimiter);
        assert tokens + ([token] + Split(left, delimiter)) == tokens + [token] + Split(left, delimiter);
        tokens := tokens + [token];
      }
      more := ok;
    }
    SplitNone(delimiter);
    assert tokens + [] == tokens;
  }

  lemma SplitStep(s: string, delimiter: char)
    requires s != ""
    ensures Split(s, delimiter) == [Line(s, delimiter)] + Split(Rest(s, delimiter), delimiter)
    ensures |Rest(s, delimiter)| < |s|
  {
  }

  lemma SplitNone(delimiter: char)
    ensures Split("", delimiter) == []
  {
  }

  /** Fields separated by a delimiter, as a chain of operator<< writes them. */
  function Join(fields: seq<string>, delimiter: char): string {
    if fields == [] then ""
    else if |fields| == 1 then fields[0]
    else fields[0] + [delimiter] + Join(fields[1..], delimiter)
  }

  lemma {:induction false} JoinPush(fields: seq<string>, field: string, delimiter: char)
    requires fields != []
    ensures Join(fields + [field], delimiter) == Join(fields, delimiter) + [delimiter] + field
  {
    var all := fields + [field];
    assert all[1..] == fields[1..] + [field];
    if |fields| == 1 {
      assert all[1..] == [field];
    } else {
      JoinPush(fields[1..], field, delimiter);
      assert Join(all, delimiter) == fields[0] + [delimiter] + (Join(fields[1..], delimiter) + [delimiter] + field);
    }
  }

  lemma FieldFirst(field: string, delimiter: char, more: string)
    requires delimiter !in field
    ensures Line(field + [delimiter] + more, delimiter) == field
    ensures Rest(field + [delimiter] + more, delimiter) == more
  {
    var s := field + [delimiter] + more;
    assert s[..|field|] == field;
    FirstAt(s, delimiter, |field|);
  }

  lemma FieldOnly(field: string, delimiter: char)
    requires delimiter !in field && field != ""
    ensures Split(field, delimiter) == [field]
  {
    FirstAt(field, delimiter, |field|);
    assert field[..|field|] == field;
    assert Rest(field, delimiter) == "";
    assert Split("", delimiter) == [];
  }

  /** What is left of a list of fields when an empty last one is lost. */
  function Readable(fields: seq<string>): seq<string>
    requires fields != []
  {
    if fields[|fields| - 1] != "" then fields else fields[..|fields| - 1]
  }

  lemma ReadableCons(fields: seq<string>)
    requires |fields| > 1
    ensures Readable(fields) == [fields[0]] + Readable(fields[1..])
  {
    assert fields == [fields[0]] + fields[1..];
  }

  lemma JoinCons(fields: seq<string>, delimiter: char)
    requires |fields| > 1
    ensures Join(fields, delimiter) == fields[0] + [delimiter] + Join(fields[1..], delimiter)
  {
  }

  /** Splitting what was joined gives back the fields, except that an empty last field is lost. */
  lemma {:induction false} SplitJoin(fields: seq<string>, delimiter: char)
    requires fields != [] && forall f | f in fields :: delimiter !in f
    ensures Split(Join(fields, delimiter), delimiter) ==
            Readable(fields)
  {
    hide Split, Line, Rest, IndexOf;
    var first, rest := fields[0], fields[1..];
    if |fields| == 1 {
      SplitNone(delimiter);
      if first != "" {
        FieldOnly(first, delimiter);
      }
    } else {
      hide Join, Readable;
      SplitJoin(rest, delimiter);
      JoinCons(fields, delimiter);
      FieldFirst(first, delimiter, Join(rest, delimiter));
      SplitStep(Join(fields, delimiter), delimiter);
      ReadableCons(fields);
    }
  }

  /** No field that was read contains the delimiter. */
  lemma {:induction false} SplitClean(s: string, delimiter: char)
    ensures forall f | f in Split(s, delimiter) :: delimiter !in f
    decreases |s|
  {
    if s != "" {
      SplitClean(Rest(s, delimiter), delimiter);
    }
  }

  /** Records with a delimiter after each. */
  function Terminated(records: seq<string>, delimiter: char): string {
    if records == [] then "" else records[0] + [delimiter] + Terminated(records[1..], delimiter)
  }

  lemma {:induction false} TerminatedPush(records: seq<string>, r: string, delimiter: char)
    ensures Terminated(records + [r], delimiter) == Terminated(records, delimiter) + r + [delimiter]
  {
    if records == [] {
      assert ([] + [r])[1..] == [];
      assert records + [r] == [r];
    } else {
      assert (records + [r])[1..] == records[1..] + [r];
      TerminatedPush(records[1..], r, delimiter);
    }
  }

  /** Records that were each terminated are all read back, empty ones included. */
  lemma {:induction false} SplitTerminated(records: seq<string>, delimiter: char)
    requires forall r | r in records :: delimiter !in r
    ensures Split(Terminated(records, delimiter), delimiter) == records
  {
    if records != [] {
      FieldFirst(records[0], delimiter, Terminated(records[1..], delimiter));
      SplitTerminated(records[1..], delimiter);
    }
  }
}
