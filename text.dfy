/** Text-level helpers of the TFS reader: the whitespace tokenizer, the
    type-token mapping and the integer parse that `convert_back` and
    `read_property` use. */
module Text {
  import opened Bytes
  import opened Results
  import opened Values

  const SPACE: uint8 := 32

  /** The delimiters every caller of `tokenize` uses: a single blank. */
  const BLANK: Bytes := [SPACE]

  // ---------------------------------------------------------------------
  // std::string::find_first_of / find_first_not_of; `None` is `npos`.
  // ---------------------------------------------------------------------

  function FindFirstOf(s: Bytes, delims: Bytes, from: nat): (r: Option<nat>)
    decreases |s| - from
    ensures r.Some? ==> from <= r.value < |s| && s[r.value] in delims
    ensures forall k | from <= k < |s| && (r.None? || k < r.value) :: s[k] !in delims
  {
    if from >= |s| then None
    else if s[from] in delims then Some(from)
    else FindFirstOf(s, delims, from + 1)
  }

  function FindFirstNotOf(s: Bytes, delims: Bytes, from: nat): (r: Option<nat>)
    decreases |s| - from
    ensures r.Some? ==> from <= r.value < |s| && s[r.value] !in delims
    ensures forall k | from <= k < |s| && (r.None? || k < r.value) :: s[k] in delims
  {
    if from >= |s| then None
    else if s[from] !in delims then Some(from)
    else FindFirstNotOf(s, delims, from + 1)
  }

  // ---------------------------------------------------------------------
  // Reference definition of what `tokenize` returns.
  // ---------------------------------------------------------------------

  predicate NoDelims(w: Bytes, delims: Bytes)
  {
    forall j | 0 <= j < |w| :: w[j] !in delims
  }

  /** Length of the run of non-delimiters that starts `s`. */
  function WordLength(s: Bytes, delims: Bytes): (n: nat)
    requires s != [] && s[0] !in delims
    ensures 0 < n <= |s| && NoDelims(s[..n], delims)
    ensures n < |s| ==> s[n] in delims
  {
    if |s| == 1 || s[1] in delims then 1
    else
      var m := WordLength(s[1..], delims);
      assert s[..1 + m] == [s[0]] + s[1..][..m];
      1 + m
  }

  /** The maximal runs of non-delimiters of `s`, left to right. */
  function Words(s: Bytes, delims: Bytes): seq<Bytes>
    decreases |s|
  {
    if s == [] then []
    else if s[0] in delims then Words(s[1..], delims)
    else
      var n := WordLength(s, delims);
      [s[..n]] + Words(s[n..], delims)
  }

  lemma {:induction false} WordLengthUnique(s: Bytes, delims: Bytes, n: nat)
    requires 0 < n <= |s| && NoDelims(s[..n], delims) && (n < |s| ==> s[n] in delims)
    ensures s[0] !in delims && WordLength(s, delims) == n
  {
    assert s[..n][0] == s[0];
    if n > 1 {
      assert s[1..][..n - 1] == s[..n][1..];
      WordLengthUnique(s[1..], delims, n - 1);
    }
  }

  /** Leading delimiters contribute nothing. */
  lemma {:induction false} WordsSkip(s: Bytes, delims: Bytes, k: nat)
    requires k <= |s| && forall j | 0 <= j < k :: s[j] in delims
    ensures Words(s, delims) == Words(s[k..], delims)
  {
    if k > 0 {
      WordsSkip(s[1..], delims, k - 1);
      assert s[1..][k - 1..] == s[k..];
    }
  }

  /** A run of non-delimiters starting at `k` and ending at `pos` is the next word. */
  lemma WordsStep(s: Bytes, delims: Bytes, k: nat, pos: nat)
    requires k < pos <= |s| && NoDelims(s[k..pos], delims) && (pos < |s| ==> s[pos] in delims)
    ensures Words(s[k..], delims) == [s[k..pos]] + Words(s[pos..], delims)
  {
    var t := s[k..];
    assert t[..pos - k] == s[k..pos];
    WordLengthUnique(t, delims, pos - k);
    assert t[pos - k..] == s[pos..];
  }

  /** Every word is non-empty and holds no delimiter. */
  lemma {:induction false} WordsAreWords(s: Bytes, delims: Bytes)
    ensures forall i | 0 <= i < |Words(s, delims)| ::
      Words(s, delims)[i] != [] && NoDelims(Words(s, delims)[i], delims)
    decreases |s|
  {
    if s != [] {
      if s[0] in delims {
        WordsAreWords(s[1..], delims);
      } else {
        WordsAreWords(s[WordLength(s, delims)..], delims);
      }
    }
  }

  /** A line yields no words exactly when it consists of delimiters only. */
  lemma {:induction false} WordsEmptyIff(s: Bytes, delims: Bytes)
    ensures Words(s, delims) == [] <==> forall j | 0 <= j < |s| :: s[j] in delims
    decreases |s|
  {
    if s != [] {
      if s[0] in delims {
        WordsEmptyIff(s[1..], delims);
        assert forall j | 1 <= j < |s| :: s[j] == s[1..][j - 1];
      }
    }
  }

  /** A single word tokenizes to itself. */
  lemma WordsOfWord(w: Bytes, delims: Bytes)
    requires w != [] && NoDelims(w, delims)
    ensures Words(w, delims) == [w]
  {
    assert w[..|w|] == w;
    WordLengthUnique(w, delims, |w|);
  }

  /** The first word of `a + [x] + b`, when `a` starts with one, lies inside `a`. */
  lemma WordsSplitWord(a: Bytes, x: uint8, b: Bytes, delims: Bytes)
    requires x in delims && a != [] && a[0] !in delims
    ensures var n := WordLength(a, delims);
      Words(a + [x] + b, delims) == [a[..n]] + Words(a[n..] + [x] + b, delims)
  {
    var s := a + [x] + b;
    var n := WordLength(a, delims);
    assert s[..n] == a[..n];
    assert s[n] in delims by {
      if n < |a| { assert s[n] == a[n]; } else { assert s[n] == x; }
    }
    WordLengthUnique(s, delims, n);
    assert s[n..] == a[n..] + [x] + b;
  }

  /** A delimiter separates: words of `a`, then words of `b`. */
  lemma {:induction false} WordsSplit(a: Bytes, x: uint8, b: Bytes, delims: Bytes)
    requires x in delims
    ensures Words(a + [x] + b, delims) == Words(a, delims) + Words(b, delims)
    decreases |a|
  {
    var s := a + [x] + b;
    if a == [] {
      assert s == [x] + b && s[1..] == b;
    } else if a[0] in delims {
      assert s[1..] == a[1..] + [x] + b;
      WordsSplit(a[1..], x, b, delims);
    } else {
      var n := WordLength(a, delims);
      WordsSplitWord(a, x, b, delims);
      WordsSplit(a[n..], x, b, delims);
    }
  }

  // ---------------------------------------------------------------------
  // tokenize (tfs_dataframe.h:657-681)
  // ---------------------------------------------------------------------

  /** Where the scan of `tokenize` starts: at the first non-delimiter, if any. */
  lemma TokenizeStart(str: Bytes, delims: Bytes)
    ensures var first := FindFirstNotOf(str, delims, 0);
      Words(str, delims) == if first.Some? then Words(str[first.value..], delims) else []
  {
    var first := FindFirstNotOf(str, delims, 0);
    if first.Some? {
      WordsSkip(str, delims, first.value);
    } else {
      WordsEmptyIff(str, delims);
    }
  }

  lemma NoDelimsSlice(str: Bytes, delims: Bytes, start: nat, pos: nat)
    requires start <= pos <= |str| && forall k | start <= k < pos :: str[k] !in delims
    ensures NoDelims(str[start..pos], delims)
  {
    forall j | 0 <= j < pos - start ensures str[start..pos][j] !in delims {
      assert str[start..pos][j] == str[start + j];
    }
  }

  /** A run of delimiters from `pos` to `end` contributes nothing. */
  lemma DelimsRun(str: Bytes, delims: Bytes, pos: nat, end: nat)
    requires pos <= end <= |str| && forall k | pos <= k < end :: str[k] in delims
    ensures Words(str[pos..], delims) == Words(str[end..], delims)
  {
    var rest := str[pos..];
    forall j | 0 <= j < end - pos ensures rest[j] in delims {
      assert rest[j] == str[pos + j];
    }
    WordsSkip(rest, delims, end - pos);
    assert rest[end - pos..] == str[end..];
  }

  /** One round of the `tokenize` loop: the run from `start` to `pos` is the
      next word, and the scan resumes at `next`, the next non-delimiter. */
  lemma TokenizeStep(str: Bytes, delims: Bytes, start: nat, pos: nat, next: Option<nat>)
    requires start < pos <= |str|
    requires forall k | start <= k < pos :: str[k] !in delims
    requires pos < |str| ==> str[pos] in delims
    requires next.Some? ==> pos <= next.value < |str|
    requires forall k | pos <= k < |str| && (next.None? || k < next.value) :: str[k] in delims
    ensures Words(str[start..], delims) ==
      [str[start..pos]] + if next.Some? then Words(str[next.value..], delims) else []
  {
    NoDelimsSlice(str, delims, start, pos);
    WordsStep(str, delims, start, pos);
    if next.Some? {
      DelimsRun(str, delims, pos, next.value);
    } else {
      DelimsRun(str, delims, pos, |str|);
      assert str[|str|..] == [];
    }
  }

  /** The loop invariant of `tokenize` survives one round. */
  lemma TokenizeAdvance(str: Bytes, delims: Bytes, before: seq<Bytes>, start: nat, pos: nat, next: Option<nat>)
    requires start < pos <= |str|
    requires forall k | start <= k < pos :: str[k] !in delims
    requires pos < |str| ==> str[pos] in delims
    requires next.Some? ==> pos <= next.value < |str|
    requires forall k | pos <= k < |str| && (next.None? || k < next.value) :: str[k] in delims
    requires before + Words(str[start..], delims) == Words(str, delims)
    ensures next.Some? ==> (before + [str[start..pos]]) + Words(str[next.value..], delims) == Words(str, delims)
    ensures next.None? ==> before + [str[start..pos]] == Words(str, delims)
  {
    TokenizeStep(str, delims, start, pos, next);
    var w := str[start..pos];
    if next.Some? {
      ConsAssoc(before, w, Words(str[next.value..], delims));
    } else {
      ConsAssoc(before, w, []);
    }
  }

  lemma ConsAssoc<T>(a: seq<T>, x: T, r: seq<T>)
    ensures a + ([x] + r) == (a + [x]) + r && (a + [x]) + [] == a + [x]
  {
  }

  /** `tokenize(str, tokens, delimiters, trimEmpty)` on an empty `tokens`.
      The run found at `lastPos` always starts with a non-delimiter, so
      `trimEmpty` never changes the result. */
  method Tokenize(str: Bytes, delimiters: Bytes, trimEmpty: bool) returns (tokens: seq<Bytes>)
    ensures tokens == Words(str, delimiters)
  {
    tokens := [];
    var length := |str|;
    var lastPos := FindFirstNotOf(str, delimiters, 0);
    TokenizeStart(str, delimiters);
    while lastPos.Some?
      invariant lastPos.Some? ==> lastPos.value < length && str[lastPos.value] !in delimiters
      invariant lastPos.Some? ==> tokens + Words(str[lastPos.value..], delimiters) == Words(str, delimiters)
      invariant lastPos.None? ==> tokens == Words(str, delimiters)
      decreases if lastPos.Some? then length - lastPos.value else 0
    {
      var start := lastPos.value;
      var found := FindFirstOf(str, delimiters, start);
      var pos := if found.Some? then found.value else length;
      TokenizeAdvance(str, delimiters, tokens, start, pos, FindFirstNotOf(str, delimiters, pos));
      if pos != start || !trimEmpty {
        tokens := tokens + [str[start..pos]];
      }
      lastPos := FindFirstNotOf(str, delimiters, pos);
    }
  }

  // ---------------------------------------------------------------------
  // Type tokens (tfs_dataframe.h:475-492)
  // ---------------------------------------------------------------------

  const PCT_D: Bytes := ['%' as uint8, 'd' as uint8]
  const PCT_LE: Bytes := ['%' as uint8, 'l' as uint8, 'e' as uint8]
  const PCT_B: Bytes := ['%' as uint8, 'b' as uint8]
  const PCT_S: Bytes := ['%' as uint8, 's' as uint8]

  /** `DT_from_string`: every unknown token, `%c` included, falls back to `S`. */
  function DtFromString(token: Bytes): (t: DataType)
    ensures t != C
    ensures t == D <==> token == PCT_D
    ensures t == LE <==> token == PCT_LE
    ensures t == B <==> token == PCT_B
  {
    if token == PCT_D then D
    else if token == PCT_LE then LE
    else if token == PCT_B then B
    else S
  }

  /** `string_fromDT`: `%b` and `%c` columns are written as `%s`. */
  function StringFromDt(t: DataType): (r: Bytes)
    ensures r in {PCT_D, PCT_LE, PCT_S}
    ensures r == PCT_D <==> t == D
    ensures r == PCT_LE <==> t == LE
  {
    match t
    case D => PCT_D
    case LE => PCT_LE
    case _ => PCT_S
  }

  /** Writing a tag and reading it back is the identity exactly on S, LE and D. */
  lemma DtRoundTrip(t: DataType)
    ensures DtFromString(StringFromDt(t)) == t <==> t in {S, LE, D}
  {
    assert PCT_S != PCT_D && PCT_S != PCT_LE && PCT_S != PCT_B;
  }

  /** Reading a token and writing the tag back is the identity exactly on `%d`, `%le`, `%s`. */
  lemma TokenRoundTrip(token: Bytes)
    ensures StringFromDt(DtFromString(token)) == token <==> token in {PCT_D, PCT_LE, PCT_S}
  {
    assert PCT_S != PCT_D && PCT_S != PCT_LE && PCT_S != PCT_B && PCT_B != PCT_D;
  }

  // ---------------------------------------------------------------------
  // strtol(s, &end, 10) and the `(int)` cast applied to it
  // ---------------------------------------------------------------------

  /** C `isspace` in the "C" locale. */
  predicate IsSpace(c: uint8) { c == 32 || 9 <= c <= 13 }
  predicate IsDigit(c: uint8) { '0' as uint8 <= c <= '9' as uint8 }

  predicate AllDigits(ds: Bytes) { forall j | 0 <= j < |ds| :: IsDigit(ds[j]) }

  /** Index of the first byte at or after `i` that is not a space. */
  function SkipSpaces(s: Bytes, i: nat): (r: nat)
    requires i <= |s|
    decreases |s| - i
    ensures i <= r <= |s| && (r < |s| ==> !IsSpace(s[r]))
    ensures forall k | i <= k < r :: IsSpace(s[k])
  {
    if i < |s| && IsSpace(s[i]) then SkipSpaces(s, i + 1) else i
  }

  /** End of the run of decimal digits that starts at `i`. */
  function DigitsEnd(s: Bytes, i: nat): (r: nat)
    requires i <= |s|
    decreases |s| - i
    ensures i <= r <= |s| && AllDigits(s[i..r]) && (r < |s| ==> !IsDigit(s[r]))
  {
    if i < |s| && IsDigit(s[i]) then
      var r := DigitsEnd(s, i + 1);
      assert s[i..r] == [s[i]] + s[i + 1..r];
      r
    else i
  }

  /** Value of a string of decimal digits, most significant first. */
  function DigitsValue(ds: Bytes): nat
    requires AllDigits(ds)
  {
    if ds == [] then 0
    else 10 * DigitsValue(ds[..|ds| - 1]) + (ds[|ds| - 1] - '0' as uint8) as nat
  }

  const LONG_MIN: int := -0x8000_0000_0000_0000
  const LONG_MAX: int := 0x7FFF_FFFF_FFFF_FFFF

  /** `strtol(s, &end, 10)` with a 64-bit `long`: leading white space,
      an optional sign, the longest run of digits; 0 when there are no
      digits, and LONG_MIN / LONG_MAX when the value does not fit. */
  function Strtol(s: Bytes): (r: int64)
    ensures var i := SkipSpaces(s, 0); r < 0 ==> i < |s| && s[i] == '-' as uint8
    ensures var i := SkipSpaces(s, 0);
      i == |s| || (!IsDigit(s[i]) && s[i] != '-' as uint8 && s[i] != '+' as uint8) ==> r == 0
  {
    var i := SkipSpaces(s, 0);
    var signed := i < |s| && (s[i] == '-' as uint8 || s[i] == '+' as uint8);
    var negative := signed && s[i] == '-' as uint8;
    var j := if signed then i + 1 else i;
    var k := DigitsEnd(s, j);
    var magnitude: int := DigitsValue(s[j..k]);
    var x: int := if negative then -magnitude else magnitude;
    if x < LONG_MIN then LONG_MIN as int64
    else if x > LONG_MAX then LONG_MAX as int64
    else x as int64
  }

  /** `static_cast<int>(long)`: keeps the low 32 bits, two's complement. */
  function ToInt32(x: int64): (r: int32)
    ensures -0x8000_0000 <= x as int < 0x8000_0000 ==> r as int == x as int
    ensures (r as int - x as int) % TWO_32 == 0
  {
    ((x as int + 0x8000_0000) % TWO_32 - 0x8000_0000) as int32
  }

  /** Decimal rendering of a natural number, used as the reference inverse of the parse. */
  function Digits(n: nat): (ds: Bytes)
    ensures ds != [] && AllDigits(ds)
  {
    if n < 10 then [('0' as int + n) as uint8]
    else
      var p := Digits(n / 10);
      var ds := p + [('0' as int + n % 10) as uint8];
      assert ds[..|ds| - 1] == p;
      ds
  }

  function Decimal(x: int): (ds: Bytes)
  {
    if x < 0 then ['-' as uint8] + Digits(-x) else Digits(x)
  }

  lemma {:induction false} DigitsValueOfDigits(n: nat)
    ensures DigitsValue(Digits(n)) == n
  {
    if n >= 10 {
      var p := Digits(n / 10);
      var ds := Digits(n);
      assert ds[..|ds| - 1] == p;
      DigitsValueOfDigits(n / 10);
    }
  }

  lemma {:induction false} DigitsEndOfDigits(s: Bytes, i: nat)
    requires i <= |s| && AllDigits(s[i..])
    ensures DigitsEnd(s, i) == |s|
    decreases |s| - i
  {
    if i < |s| {
      assert s[i..][0] == s[i];
      assert s[i + 1..] == s[i..][1..];
      DigitsEndOfDigits(s, i + 1);
    }
  }

  lemma StrtolOfDigits(n: nat)
    requires n <= LONG_MAX
    ensures Strtol(Digits(n)) as int == n
  {
    var s := Digits(n);
    DigitsValueOfDigits(n);
    assert s[0..] == s && s[0..|s|] == s;
    assert SkipSpaces(s, 0) == 0;
    DigitsEndOfDigits(s, 0);
  }

  lemma StrtolOfMinusDigits(n: nat)
    requires n <= -LONG_MIN
    ensures Strtol(['-' as uint8] + Digits(n)) as int == -(n as int)
  {
    var ds := Digits(n);
    var s := ['-' as uint8] + ds;
    DigitsValueOfDigits(n);
    assert s[1..] == ds && s[1..|s|] == ds;
    assert SkipSpaces(s, 0) == 0;
    DigitsEndOfDigits(s, 1);
  }

  /** `strtol` inverts the decimal rendering of every `long`. */
  lemma StrtolOfDecimal(x: int64)
    ensures Strtol(Decimal(x as int)) == x
  {
    var m: int := x as int;
    if m < 0 {
      StrtolOfMinusDigits(-m);
    } else {
      StrtolOfDigits(m);
    }
  }

  /** A token that starts with neither space, sign nor digit parses as 0. */
  lemma StrtolNoDigits(s: Bytes)
    requires s != [] && !IsSpace(s[0]) && !IsDigit(s[0]) && s[0] != '-' as uint8 && s[0] != '+' as uint8
    ensures Strtol(s) == 0
  {
    assert SkipSpaces(s, 0) == 0;
    assert DigitsEnd(s, 0) == 0;
  }

  // ---------------------------------------------------------------------
  // The string value of a property line (tfs_dataframe.h:782-787)
  // ---------------------------------------------------------------------

  /** `std::copy` into an `ostream_iterator(ss, " ")`: each token followed by one blank. */
  function JoinTrailing(tokens: seq<Bytes>): (r: Bytes)
  {
    if tokens == [] then [] else tokens[0] + [SPACE] + JoinTrailing(tokens[1..])
  }

  /** The joined value ends in a blank whenever there was a token. */
  lemma {:induction false} JoinTrailingEndsInBlank(tokens: seq<Bytes>)
    requires tokens != []
    ensures |JoinTrailing(tokens)| > 0 && JoinTrailing(tokens)[|JoinTrailing(tokens)| - 1] == SPACE
  {
    if |tokens| > 1 {
      JoinTrailingEndsInBlank(tokens[1..]);
    }
  }

  /** Tokenizing the joined value gives back the tokens. */
  lemma {:induction false} WordsOfJoinTrailing(tokens: seq<Bytes>)
    requires forall i | 0 <= i < |tokens| :: tokens[i] != [] && NoDelims(tokens[i], BLANK)
    ensures Words(JoinTrailing(tokens), BLANK) == tokens
  {
    if tokens != [] {
      WordsOfJoinTrailing(tokens[1..]);
      WordsSplit(tokens[0], SPACE, JoinTrailing(tokens[1..]), BLANK);
      WordsOfWord(tokens[0], BLANK);
    }
  }

  lemma {:induction false} JoinTrailingSnoc(tokens: seq<Bytes>, t: Bytes)
    ensures JoinTrailing(tokens + [t]) == JoinTrailing(tokens) + t + [SPACE]
  {
    if tokens != [] {
      assert (tokens + [t])[1..] == tokens[1..] + [t];
      JoinTrailingSnoc(tokens[1..], t);
    }
  }

  /** The `std::copy` loop of `read_property` into an `ostringstream`. */
  method CollapseTokens(tokens: seq<Bytes>) returns (r: Bytes)
    ensures r == JoinTrailing(tokens)
  {
    r := [];
    var i := 0;
    while i < |tokens|
      invariant 0 <= i <= |tokens|
      invariant r == JoinTrailing(tokens[..i])
    {
      JoinTrailingSnoc(tokens[..i], tokens[i]);
      assert tokens[..i + 1] == tokens[..i] + [tokens[i]];
      r := r + tokens[i] + [SPACE];
      i := i + 1;
    }
    assert tokens[..i] == tokens;
  }
}
