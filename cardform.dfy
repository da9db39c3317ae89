/** The credit-card form of the browser build: the three field validators
    (card number, expiry, CVV), which all rest on Go's
    strconv.ParseInt(s, 10, 64), and the focus cycling between the fields.
    Go strings are byte strings, so every field value here is a byte sequence
    and every length or index is counted in bytes. */
module CardForm {

  import opened Wrappers
  import opened Utf8

  const MinInt64: int := -0x8000_0000_0000_0000
  const MaxInt64: int := 0x7FFF_FFFF_FFFF_FFFF
  const MaxUint64: int := 0xFFFF_FFFF_FFFF_FFFF

  /** The two error kinds strconv reports. */
  datatype NumError = ErrSyntax | ErrRange

  predicate IsDigit(b: Byte) {
    '0' as int <= b <= '9' as int
  }

  predicate AllDigits(s: seq<Byte>) {
    forall i :: 0 <= i < |s| ==> IsDigit(s[i])
  }

  /** The value of a decimal numeral, read from its last digit backwards:
      the reference against which the parser below is proved. */
  function Value(s: seq<Byte>): nat
    requires AllDigits(s)
  {
    if s == [] then 0 else Value(s[..|s| - 1]) * 10 + (s[|s| - 1] - '0' as int)
  }

  /** The decimal text of a natural number, most significant digit first. */
  function Digits(n: nat): (s: seq<Byte>)
    ensures |s| >= 1 && AllDigits(s)
  {
    if n < 10 then ['0' as int + n] else Digits(n / 10) + ['0' as int + n % 10]
  }

  /** strconv.ParseUint's digit loop for base 10 and 64 bits: the accumulator n
      so far, a syntax error at the first non-digit, a range error as soon as
      the value no longer fits in 64 bits, whichever comes first. */
  function ParseUintFrom(s: seq<Byte>, n: nat): Result<nat, NumError>
  {
    if s == [] then Ok(n)
    else if !IsDigit(s[0]) then Err(ErrSyntax)
    else if n >= MaxUint64 / 10 + 1 then Err(ErrRange)
    else
      var n1 := n * 10 + (s[0] - '0' as int);
      if n1 > MaxUint64 then Err(ErrRange) else ParseUintFrom(s[1..], n1)
  }

  function ParseUint(s: seq<Byte>): Result<nat, NumError> {
    if s == [] then Err(ErrSyntax) else ParseUintFrom(s, 0)
  }

  /** strconv.ParseInt(s, 10, 64): an optional '+' or '-', then ParseUint on
      the rest, then the signed 64-bit range check. */
  function ParseInt(s: seq<Byte>): Result<int, NumError> {
    if s == [] then Err(ErrSyntax)
    else
      var neg := s[0] == '-' as int;
      var body := if s[0] == '+' as int || neg then s[1..] else s;
      match ParseUint(body)
      case Err(ErrSyntax) => Err(ErrSyntax)
      case Err(ErrRange) => Err(ErrRange)
      case Ok(un) =>
        if !neg && un > MaxInt64 then Err(ErrRange)
        else if neg && un > -MinInt64 then Err(ErrRange)
        else Ok(if neg then -(un as int) else un)
  }

  /** What ParseInt accepts, stated without the parser: an optional sign, one
      or more ASCII digits, and a value in the int64 range. */
  predicate IsInt64Literal(s: seq<Byte>) {
    && s != []
    && var neg := s[0] == '-' as int;
       var body := if s[0] == '+' as int || neg then s[1..] else s;
       && body != []
       && AllDigits(body)
       && MinInt64 <= (if neg then -(Value(body) as int) else Value(body)) <= MaxInt64
  }

  function LiteralValue(s: seq<Byte>): int
    requires IsInt64Literal(s)
  {
    var neg := s[0] == '-' as int;
    var body := if s[0] == '+' as int || neg then s[1..] else s;
    if neg then -(Value(body) as int) else Value(body)
  }

  lemma {:induction false} ValueSnoc(s: seq<Byte>, d: Byte)
    requires AllDigits(s) && IsDigit(d)
    ensures AllDigits(s + [d]) && Value(s + [d]) == Value(s) * 10 + (d - '0' as int)
  {
    assert (s + [d])[..|s|] == s;
  }

  /** Value of a numeral read after an accumulated prefix value n. */
  function Acc(s: seq<Byte>, n: nat): nat
    requires AllDigits(s)
  {
    if s == [] then n else Acc(s[1..], n * 10 + (s[0] - '0' as int))
  }

  lemma {:induction false} AccValue(s: seq<Byte>, p: seq<Byte>)
    requires AllDigits(s) && AllDigits(p)
    ensures AllDigits(p + s) && Acc(s, Value(p)) == Value(p + s)
    decreases |s|
  {
    if s == [] {
      assert p + s == p;
    } else {
      ValueSnoc(p, s[0]);
      assert (p + [s[0]]) + s[1..] == p + s;
      AccValue(s[1..], p + [s[0]]);
    }
  }

  lemma {:induction false} AccGrows(s: seq<Byte>, n: nat)
    requires AllDigits(s)
    ensures Acc(s, n) >= n
    ensures s != [] ==> Acc(s, n) >= n * 10
    decreases |s|
  {
    if s != [] {
      AccGrows(s[1..], n * 10 + (s[0] - '0' as int));
    }
  }

  /** The digit loop fails exactly when the numeral does not fit in 64 bits,
      and otherwise yields its value. */
  lemma {:induction false} ParseUintFromDigits(s: seq<Byte>, n: nat)
    requires AllDigits(s) && n <= MaxUint64
    ensures ParseUintFrom(s, n) == if Acc(s, n) <= MaxUint64 then Ok(Acc(s, n)) else Err(ErrRange)
    decreases |s|
  {
    if s != [] {
      var n1 := n * 10 + (s[0] - '0' as int);
      AccGrows(s[1..], n1);
      AccGrows(s, n);
      if n < MaxUint64 / 10 + 1 && n1 <= MaxUint64 {
        ParseUintFromDigits(s[1..], n1);
      }
    }
  }

  /** A byte that is not a digit, met before the value overflows, is a syntax
      error; so ParseUint succeeds only on all-digit input. */
  lemma {:induction false} ParseUintFromNonDigit(s: seq<Byte>, n: nat)
    requires !AllDigits(s)
    ensures ParseUintFrom(s, n).Err?
    decreases |s|
  {
    if IsDigit(s[0]) {
      var n1 := n * 10 + (s[0] - '0' as int);
      if n < MaxUint64 / 10 + 1 && n1 <= MaxUint64 {
        assert !AllDigits(s[1..]) by {
          var i :| 0 <= i < |s| && !IsDigit(s[i]);
          assert i > 0 && !IsDigit(s[1..][i - 1]);
        }
        ParseUintFromNonDigit(s[1..], n1);
      }
    }
  }

  /** ParseInt accepts exactly the int64 literals, with their value. */
  lemma ParseIntSpec(s: seq<Byte>)
    ensures ParseInt(s).Ok? <==> IsInt64Literal(s)
    ensures ParseInt(s).Ok? ==> ParseInt(s).value == LiteralValue(s)
  {
    if s != [] {
      var neg := s[0] == '-' as int;
      var body := if s[0] == '+' as int || neg then s[1..] else s;
      if body != [] {
        if AllDigits(body) {
          ParseUintFromDigits(body, 0);
          AccValue(body, []);
          assert [] + body == body;
        } else {
          ParseUintFromNonDigit(body, 0);
        }
      }
    }
  }

  /** The decimal text of every int64 value parses back to that value. */
  lemma ParseFormatted(v: int)
    requires MinInt64 <= v <= MaxInt64
    ensures v >= 0 ==> ParseInt(Digits(v)) == Ok(v)
    ensures v < 0 ==> ParseInt(['-' as int] + Digits(-v)) == Ok(v)
  {
    var m: nat := if v >= 0 then v else -v;
    DigitsValue(m);
    if v >= 0 {
      ParseIntSpec(Digits(v));
    } else {
      var s := ['-' as int] + Digits(m);
      assert s[1..] == Digits(m);
      ParseIntSpec(s);
    }
  }

  lemma {:induction false} DigitsValue(n: nat)
    ensures Value(Digits(n)) == n
  {
    if n >= 10 {
      DigitsValue(n / 10);
      ValueSnoc(Digits(n / 10), '0' as int + n % 10);
    }
  }

  /** strings.ReplaceAll(s, string(c), ""): every byte c deleted. */
  function RemoveAll(s: seq<Byte>, c: Byte): (r: seq<Byte>)
    ensures forall i :: 0 <= i < |r| ==> r[i] != c
    ensures |r| + Count(s, c) == |s|
    ensures forall d :: d != c ==> Count(r, d) == Count(s, d)
  {
    if s == [] then []
    else
      var rest := RemoveAll(s[1..], c);
      if s[0] == c then rest
      else
        assert ([s[0]] + rest)[1..] == rest;
        [s[0]] + rest
  }

  /** strings.Index(s, string(c)): the first index of c, or -1. */
  function Index(s: seq<Byte>, c: Byte): (k: int)
    ensures -1 <= k < |s|
    ensures k == -1 <==> c !in s
    ensures k >= 0 ==> s[k] == c && c !in s[..k]
  {
    if s == [] then -1
    else if s[0] == c then 0
    else var k := Index(s[1..], c); if k == -1 then -1 else k + 1
  }

  /** strings.LastIndex(s, string(c)): the last index of c, or -1. */
  function LastIndex(s: seq<Byte>, c: Byte): (k: int)
    ensures -1 <= k < |s|
    ensures k == -1 <==> c !in s
    ensures k >= 0 ==> s[k] == c && c !in s[k + 1..]
  {
    if s == [] then -1
    else if s[|s| - 1] == c then |s| - 1
    else LastIndex(s[..|s| - 1], c)
  }

  /** What a validator reports: nil, the card-number length error, the
      expiry's "invalid", or ParseInt's own error. */
  datatype FieldError = TooLong | Invalid | Parse(kind: NumError)

  function CcnValidator(s: seq<Byte>): Option<FieldError> {
    if |s| > 19 then Some(TooLong)
    else match ParseInt(RemoveAll(s, ' ' as int))
      case Ok(_) => None
      case Err(e) => Some(Parse(e))
  }

  function ExpValidator(s: seq<Byte>): Option<FieldError> {
    if ParseInt(RemoveAll(s, '/' as int)).Err? then Some(Invalid)
    else if |s| >= 3 && (Index(s, '/' as int) != 2 || LastIndex(s, '/' as int) != 2) then Some(Invalid)
    else None
  }

  function CvvValidator(s: seq<Byte>): Option<FieldError> {
    match ParseInt(s)
    case Ok(_) => None
    case Err(e) => Some(Parse(e))
  }

  /** A card number longer than 19 bytes is rejected whatever it holds. */
  lemma CcnRejectsLong(s: seq<Byte>)
    requires |s| > 19
    ensures CcnValidator(s) == Some(TooLong)
  {
  }

  /** Up to 19 bytes, a card number is accepted exactly when, with its spaces
      deleted, it is an int64 literal. */
  lemma CcnAccepts(s: seq<Byte>)
    requires |s| <= 19
    ensures CcnValidator(s) == None <==> IsInt64Literal(RemoveAll(s, ' ' as int))
  {
    ParseIntSpec(RemoveAll(s, ' ' as int));
  }

  function Count(s: seq<Byte>, c: Byte): nat {
    if s == [] then 0 else (if s[0] == c then 1 else 0) + Count(s[1..], c)
  }

  /** The first and the last slash are both at index 2 exactly when there is
      one slash and it is at index 2. */
  lemma {:induction false} SlashAtTwo(s: seq<Byte>, c: Byte)
    requires |s| >= 3
    ensures (Index(s, c) == 2 && LastIndex(s, c) == 2) <==> (s[2] == c && Count(s, c) == 1)
  {
    CountSplit(s[..2], [s[2]], s[3..], c);
    assert s == s[..2] + [s[2]] + s[3..];
    CountZeroIff(s[..2], c);
    CountZeroIff(s[3..], c);
    assert s[3..] == s[2 + 1..];
    if s[2] == c && Count(s, c) == 1 {
      assert c in s;
    }
  }

  lemma {:induction false} CountSplit(a: seq<Byte>, b: seq<Byte>, d: seq<Byte>, c: Byte)
    ensures Count(a + b + d, c) == Count(a, c) + Count(b, c) + Count(d, c)
  {
    CountAppend(a, b, c);
    CountAppend(a + b, d, c);
  }

  lemma {:induction false} CountAppend(a: seq<Byte>, b: seq<Byte>, c: Byte)
    ensures Count(a + b, c) == Count(a, c) + Count(b, c)
    decreases |a|
  {
    if a == [] {
      assert a + b == b;
    } else {
      assert (a + b)[0] == a[0] && (a + b)[1..] == a[1..] + b;
      CountAppend(a[1..], b, c);
    }
  }

  lemma {:induction false} CountZeroIff(s: seq<Byte>, c: Byte)
    ensures Count(s, c) == 0 <==> c !in s
    decreases |s|
  {
    if s != [] {
      CountZeroIff(s[1..], c);
      assert s == [s[0]] + s[1..];
    }
  }

  /** An expiry is accepted exactly when its digits (slashes deleted) form an
      int64 literal and, from three bytes on, it holds one slash, at index 2. */
  lemma ExpAccepts(s: seq<Byte>)
    ensures ExpValidator(s) == None <==>
      && IsInt64Literal(RemoveAll(s, '/' as int))
      && (|s| >= 3 ==> s[2] == '/' as int && Count(s, '/' as int) == 1)
  {
    ParseIntSpec(RemoveAll(s, '/' as int));
    if |s| >= 3 {
      SlashAtTwo(s, '/' as int);
    }
  }

  /** A CVV is accepted exactly when it is an int64 literal. */
  lemma CvvAccepts(s: seq<Byte>)
    ensures CvvValidator(s) == None <==> IsInt64Literal(s)
  {
    ParseIntSpec(s);
  }

  /** Focus after model.next: one field on, wrapping to the first. */
  function NextFocus(focused: int, count: nat): (f: int)
    requires 0 <= focused < count
    ensures 0 <= f < count
  {
    (focused + 1) % count
  }

  /** Focus after model.prev: one field back, wrapping to the last. */
  function PrevFocus(focused: int, count: nat): (f: int)
    requires 0 <= focused < count
    ensures 0 <= f < count
  {
    if focused - 1 < 0 then count - 1 else focused - 1
  }

  /** prev undoes next and next undoes prev. */
  lemma FocusInverse(focused: int, count: nat)
    requires 0 <= focused < count
    ensures PrevFocus(NextFocus(focused, count), count) == focused
    ensures NextFocus(PrevFocus(focused, count), count) == focused
  {
    if focused + 1 == count {
      assert NextFocus(focused, count) == 0;
    } else {
      assert NextFocus(focused, count) == focused + 1;
    }
    if focused == 0 {
      assert NextFocus(count - 1, count) == 0;
    } else {
      assert NextFocus(focused - 1, count) == focused;
    }
  }

  /** The form's focus state: which of its input fields has the cursor. */
  class Form {
    const count: nat
    var focused: int

    predicate Valid()
      reads this
    {
      0 <= focused < count
    }

    /** initialModel: three inputs (number, expiry, CVV), the first focused. */
    constructor ()
      ensures Valid() && count == 3 && focused == 0
    {
      count := 3;
      focused := 0;
    }

    method Next()
      requires Valid()
      modifies this
      ensures Valid() && focused == NextFocus(old(focused), count)
    {
      focused := (focused + 1) % count;
    }

    method Prev()
      requires Valid()
      modifies this
      ensures Valid() && focused == PrevFocus(old(focused), count)
    {
      focused := focused - 1;
      if focused < 0 {
        focused := count - 1;
      }
    }
  }
}
