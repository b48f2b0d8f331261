/** The pieces of the Java and Android text libraries that the bitrate store
    relies on: `TextUtils.SimpleStringSplitter`, `String.trim`,
    `Integer.parseInt` and `Integer.toString`, written as total functions. */
module JavaText {
  import opened Options

  /** A Java `int`. */
  type Int32 = x: int | -0x8000_0000 <= x < 0x8000_0000

  /** Index of the first occurrence of `c` in `s`, or `|s|` when there is none. */
  function IndexOf(s: string, c: char): (i: nat)
    ensures i <= |s|
    ensures i < |s| ==> s[i] == c
    ensures forall j :: 0 <= j < i ==> s[j] != c
  {
    if s == [] then 0
    else if s[0] == c then 0
    else 1 + IndexOf(s[1..], c)
  }

  lemma {:induction false} IndexOfSplitPoint(x: string, c: char, y: string)
    requires c !in x
    ensures IndexOf(x + [c] + y, c) == |x|
  {
    var s := x + [c] + y;
    assert s[|x|] == c;
    assert forall j :: 0 <= j < |x| ==> s[j] == x[j];
  }

  // ---------------------------------------------------------------------------
  // SimpleStringSplitter

  /** The tokens a `SimpleStringSplitter` with delimiter `d` yields for `s`:
      the pieces between delimiters, where a delimiter at the very end does
      not start a further (empty) token and the empty string has no token. */
  function Split(s: string, d: char): (ts: seq<string>)
    ensures s == [] <==> ts == []
    ensures forall k :: 0 <= k < |ts| ==> d !in ts[k]
    decreases |s|
  {
    if s == [] then []
    else
      var i := IndexOf(s, d);
      if i == |s| then [s]
      else [s[..i]] + Split(s[i + 1..], d)
  }

  /** Every token followed by the delimiter, the last one included. */
  function JoinTerminated(ts: seq<string>, d: char): string
  {
    if ts == [] then [] else ts[0] + [d] + JoinTerminated(ts[1..], d)
  }

  /** Joining one more token appends it and its delimiter. */
  lemma {:induction false} JoinTerminatedAppend(ts: seq<string>, t: string, d: char)
    ensures JoinTerminated(ts + [t], d) == JoinTerminated(ts, d) + t + [d]
  {
    if ts == [] {
      assert [t][1..] == [];
    } else {
      assert (ts + [t])[0] == ts[0] && (ts + [t])[1..] == ts[1..] + [t];
      JoinTerminatedAppend(ts[1..], t, d);
    }
  }

  /** Splitting a string that starts with a delimiter-free piece and a
      delimiter: that piece is the first token. */
  lemma SplitCons(x: string, d: char, rest: string)
    requires d !in x
    ensures Split(x + [d] + rest, d) == [x] + Split(rest, d)
  {
    var s := x + [d] + rest;
    IndexOfSplitPoint(x, d, rest);
    assert s[..|x|] == x;
    assert s[|x| + 1..] == rest;
  }

  /** Splitting undoes terminated joining, as long as no token holds the
      delimiter: the trailing delimiter yields no extra empty token. */
  lemma {:induction false} SplitJoinTerminated(ts: seq<string>, d: char)
    requires forall k :: 0 <= k < |ts| ==> d !in ts[k]
    ensures Split(JoinTerminated(ts, d), d) == ts
  {
    if ts != [] {
      var rest := JoinTerminated(ts[1..], d);
      assert JoinTerminated(ts, d) == ts[0] + [d] + rest;
      SplitCons(ts[0], d, rest);
      SplitJoinTerminated(ts[1..], d);
      assert ts == [ts[0]] + ts[1..];
    }
  }

  /** Where a string splits first: the text before the first delimiter is the
      first token and splitting goes on after that delimiter. */
  lemma SplitFirst(s: string, d: char)
    requires IndexOf(s, d) < |s|
    ensures s == s[..IndexOf(s, d)] + [d] + s[IndexOf(s, d) + 1..]
    ensures Split(s, d) == [s[..IndexOf(s, d)]] + Split(s[IndexOf(s, d) + 1..], d)
  {
    var i := IndexOf(s, d);
    assert s == s[..i] + [d] + s[i + 1..];
    assert Split(s, d) == [s[..i]] + Split(s[i + 1..], d);
  }

  /** And the other way round: joining the tokens of any string gives back
      the string, with a delimiter appended unless it already ended in one. */
  lemma {:induction false} JoinTerminatedSplit(s: string, d: char)
    ensures JoinTerminated(Split(s, d), d)
         == if s == [] || s[|s| - 1] == d then s else s + [d]
    decreases |s|
  {
    if s != [] {
      if IndexOf(s, d) == |s| {
        assert Split(s, d) == [s];
        assert Split(s, d)[1..] == [];
      } else {
        SplitFirst(s, d);
        var i := IndexOf(s, d);
        var pre, tail := s[..i], s[i + 1..];
        var ts := Split(s, d);
        assert ts[0] == pre && ts[1..] == Split(tail, d);
        JoinTerminatedSplit(tail, d);
        JoinTerminatedSplitStep(pre, d, tail, JoinTerminated(Split(tail, d), d));
      }
    }
  }

  lemma JoinTerminatedSplitStep(pre: string, d: char, tail: string, rest: string)
    requires rest == if tail == [] || tail[|tail| - 1] == d then tail else tail + [d]
    ensures var s := pre + [d] + tail;
            pre + [d] + rest == if s[|s| - 1] == d then s else s + [d]
  {
    var s := pre + [d] + tail;
    if tail != [] {
      assert tail[|tail| - 1] == s[|s| - 1];
    }
  }

  // ---------------------------------------------------------------------------
  // String.trim

  /** `String.trim` removes every character up to and including the space. */
  predicate IsBlank(c: char) { c <= ' ' }

  function TrimStart(s: string): (r: string)
    ensures r == [] || !IsBlank(r[0])
  {
    if s != [] && IsBlank(s[0]) then TrimStart(s[1..]) else s
  }

  function TrimEnd(s: string): (r: string)
    ensures r == [] || !IsBlank(r[|r| - 1])
  {
    if s != [] && IsBlank(s[|s| - 1]) then TrimEnd(s[..|s| - 1]) else s
  }

  /** `String.trim`: neither end of the result is blank. */
  function Trim(s: string): (r: string)
    ensures r == [] || (!IsBlank(r[0]) && !IsBlank(r[|r| - 1]))
  {
    var t := TrimStart(s);
    TrimEndDropsBlankSuffix(t);
    TrimEnd(t)
  }

  /** `TrimStart` drops a blank prefix and keeps the rest. */
  lemma {:induction false} TrimStartDropsBlankPrefix(s: string)
    ensures |TrimStart(s)| <= |s| && TrimStart(s) == s[|s| - |TrimStart(s)|..]
    ensures forall j :: 0 <= j < |s| - |TrimStart(s)| ==> IsBlank(s[j])
  {
    if s != [] && IsBlank(s[0]) {
      TrimStartDropsBlankPrefix(s[1..]);
    }
  }

  /** `TrimEnd` drops a blank suffix and keeps the rest. */
  lemma {:induction false} TrimEndDropsBlankSuffix(s: string)
    ensures |TrimEnd(s)| <= |s| && TrimEnd(s) == s[..|TrimEnd(s)|]
    ensures forall j :: |TrimEnd(s)| <= j < |s| ==> IsBlank(s[j])
  {
    if s != [] && IsBlank(s[|s| - 1]) {
      TrimEndDropsBlankSuffix(s[..|s| - 1]);
    }
  }

  /** Trimming keeps only characters of its input. */
  lemma TrimChars(s: string)
    ensures forall c :: c in Trim(s) ==> c in s
  {
    TrimStartDropsBlankPrefix(s);
    var t := TrimStart(s);
    TrimEndDropsBlankSuffix(t);
    var off := |s| - |t|;
    assert forall j :: 0 <= j < |Trim(s)| ==> Trim(s)[j] == s[off + j];
  }

  /** A slice holds only characters of the string it is cut from. */
  lemma SliceChars(s: string, i: nat, j: nat)
    requires i <= j <= |s|
    ensures forall c :: c in s[i..j] ==> c in s
  {
    assert forall n :: 0 <= n < j - i ==> s[i..j][n] == s[i + n];
  }

  /** A token of a split holds only characters of the split string. */
  lemma {:induction false} SplitTokenChars(s: string, d: char, k: nat)
    requires k < |Split(s, d)|
    ensures forall c :: c in Split(s, d)[k] ==> c in s
    decreases |s|
  {
    var i := IndexOf(s, d);
    if i == |s| {
      assert Split(s, d) == [s];
    } else {
      SplitFirst(s, d);
      if k == 0 {
        SliceChars(s, 0, i);
      } else {
        var tail := s[i + 1..];
        assert Split(s, d)[k] == Split(tail, d)[k - 1];
        SplitTokenChars(tail, d, k - 1);
        SliceChars(s, i + 1, |s|);
      }
    }
  }

  /** A string with no blank at either end is its own trim. */
  lemma TrimUnblanked(s: string)
    requires s == [] || (!IsBlank(s[0]) && !IsBlank(s[|s| - 1]))
    ensures Trim(s) == s
  {
  }

  // ---------------------------------------------------------------------------
  // Integer.parseInt and Integer.toString (decimal, ASCII digits)

  predicate IsDigit(c: char) { '0' <= c <= '9' }

  predicate AllDigits(s: string) { forall k :: 0 <= k < |s| ==> IsDigit(s[k]) }

  function DigitValue(c: char): nat
    requires IsDigit(c)
  {
    c as int - '0' as int
  }

  function DigitChar(n: nat): (c: char)
    requires n < 10
    ensures IsDigit(c) && DigitValue(c) == n
  {
    ('0' as int + n) as char
  }

  /** The number a string of decimal digits denotes. */
  function DigitsValue(s: string): nat
    requires AllDigits(s)
  {
    if s == [] then 0 else 10 * DigitsValue(s[..|s| - 1]) + DigitValue(s[|s| - 1])
  }

  /** `Integer.parseInt`: an optional sign followed by at least one digit,
      denoting a value that fits in an `int`; anything else is `None`
      (the `NumberFormatException`). */
  function ParseInt(s: string): (r: Option<Int32>)
    ensures r.Some? ==> s != [] && IsDigit(s[|s| - 1])
    ensures r.Some? && r.value < 0 ==> s[0] == '-'
    ensures r.Some? ==>
              && s != []
              && (var d := if s[0] == '-' || s[0] == '+' then s[1..] else s;
                  && d != [] && AllDigits(d)
                  && r.value as int == if s[0] == '-' then -(DigitsValue(d) as int) else DigitsValue(d))
    ensures s != [] ==>
              (var d := if s[0] == '-' || s[0] == '+' then s[1..] else s;
               (&& d != [] && AllDigits(d)
                && -0x8000_0000 <= (if s[0] == '-' then -(DigitsValue(d) as int) else DigitsValue(d)) < 0x8000_0000)
               ==> r.Some?)
  {
    if s == [] then None
    else
      var negative := s[0] == '-';
      var digits := if s[0] == '-' || s[0] == '+' then s[1..] else s;
      if digits == [] || !AllDigits(digits) then None
      else
        assert IsDigit(s[|s| - 1]) by { assert s[|s| - 1] == digits[|digits| - 1]; }
        var v: int := if negative then -(DigitsValue(digits) as int) else DigitsValue(digits);
        if -0x8000_0000 <= v < 0x8000_0000 then Some(v) else None
  }

  /** Decimal digits of `n` without leading zeros. */
  function ShowNat(n: nat): (s: string)
    ensures s != [] && AllDigits(s)
    ensures |s| > 1 ==> s[0] != '0'
  {
    if n < 10 then [DigitChar(n)] else ShowNat(n / 10) + [DigitChar(n % 10)]
  }

  /** `Integer.toString`: a minus sign for negative values, then the digits. */
  function ShowInt(v: int): (s: string)
    ensures s != [] && (s[0] == '-' <==> v < 0)
    ensures AllDigits(s[1..])
    ensures var d := if v < 0 then s[1..] else s;
            && d != [] && AllDigits(d) && (|d| > 1 ==> d[0] != '0')
            && DigitsValue(d) == if v < 0 then -v else v
  {
    DigitsValueShowNat(if v < 0 then -v else v);
    if v < 0 then "-" + ShowNat(-v) else ShowNat(v)
  }

  lemma {:induction false} DigitsValueShowNat(n: nat)
    ensures DigitsValue(ShowNat(n)) == n
  {
    if n >= 10 {
      var s := ShowNat(n);
      assert s[..|s| - 1] == ShowNat(n / 10);
      DigitsValueShowNat(n / 10);
    }
  }

  /** `Integer.parseInt` reads back what `Integer.toString` writes. */
  lemma ParseShowInt(v: Int32)
    ensures ParseInt(ShowInt(v)) == Some(v)
  {
  }

  /** What `Integer.toString` writes holds no delimiter and no blank. */
  lemma ShowIntPlain(v: int)
    ensures forall k :: 0 <= k < |ShowInt(v)| ==> ShowInt(v)[k] == '-' || IsDigit(ShowInt(v)[k])
    ensures !IsBlank(ShowInt(v)[0]) && !IsBlank(ShowInt(v)[|ShowInt(v)| - 1])
  {
  }
}
