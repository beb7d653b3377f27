/** The parts of Go's strings and strconv packages that routing uses, with the facts about them that it needs. */
module GoStrings {

  /** The first index at which sep occurs in s, or |s|. */
  function Find(s: string, sep: string): (i: nat)
    requires sep != ""
    ensures i <= |s|
    ensures i < |s| ==> sep <= s[i..]
    ensures forall j :: 0 <= j < i ==> !(sep <= s[j..])
  {
    if s == "" || sep <= s then 0
    else
      var i := Find(s[1..], sep);
      assert forall j :: 1 <= j <= |s| ==> s[1..][j - 1..] == s[j..];
      1 + i
  }

  predicate Contains(s: string, sep: string)
    requires sep != ""
  {
    Find(s, sep) < |s|
  }

  /** The pieces between the occurrences of sep, taken from left to right. */
  function Split(s: string, sep: string): (parts: seq<string>)
    requires sep != ""
    ensures |parts| >= 1
    ensures |parts| >= 2 <==> Contains(s, sep)
  {
    var i := Find(s, sep);
    if i == |s| then [s] else [s[..i]] + Split(s[i + |sep|..], sep)
  }

  function ReplaceFirst(s: string, old_: string, new_: string): (r: string)
    requires old_ != ""
  {
    var i := Find(s, old_);
    if i == |s| then s else s[..i] + new_ + s[i + |old_|..]
  }

  lemma FindAt(s: string, sep: string, i: nat)
    requires sep != "" && i < |s| && sep <= s[i..]
    requires forall j :: 0 <= j < i ==> !(sep <= s[j..])
    ensures Find(s, sep) == i
  {
  }

  lemma FindNone(s: string, sep: string)
    requires sep != "" && forall j :: 0 <= j < |s| ==> !(sep <= s[j..])
    ensures Find(s, sep) == |s|
  {
  }

  /** The texts with sep between them. */
  function Join(parts: seq<string>, sep: string): (s: string) {
    if parts == [] then ""
    else if |parts| == 1 then parts[0]
    else parts[0] + sep + Join(parts[1..], sep)
  }

  /** Splitting at a character undoes joining with it, for texts that do not have it. */
  lemma {:induction false} SplitJoin(parts: seq<string>, c: char)
    requires parts != [] && forall k :: 0 <= k < |parts| ==> c !in parts[k]
    ensures Split(Join(parts, [c]), [c]) == parts
    decreases |parts|
  {
    hide Find;
    var s, head := Join(parts, [c]), parts[0];
    if |parts| == 1 {
      forall j | 0 <= j < |s|
        ensures !([c] <= s[j..])
      {
        if [c] <= s[j..] { PrefixAt(s, j, [c], 0); }
      }
      FindNone(s, [c]);
    } else {
      var rest := Join(parts[1..], [c]);
      assert s == head + [c] + rest && s[|head|..] == [c] + rest;
      forall j | 0 <= j < |head|
        ensures !([c] <= s[j..])
      {
        if [c] <= s[j..] { PrefixAt(s, j, [c], 0); }
      }
      FindAt(s, [c], |head|);
      assert s[..|head|] == head && s[|head| + 1..] == rest;
      SplitJoin(parts[1..], c);
    }
  }

  /** Where sep occurs in a joined text that it has no separator character in common with: within one of the texts. */
  lemma {:induction false} JoinFree(parts: seq<string>, c: char, sep: string)
    requires sep != "" && c !in sep && forall k :: 0 <= k < |parts| ==> !Contains(parts[k], sep)
    ensures !Contains(Join(parts, [c]), sep)
    decreases |parts|
  {
    hide Find;
    if |parts| > 1 {
      var head, rest := parts[0], Join(parts[1..], [c]);
      JoinFree(parts[1..], c, sep);
      var s := head + [c] + rest;
      forall j | 0 <= j < |s|
        ensures !(sep <= s[j..])
      {
        if sep <= s[j..] { OccursAside(head, c, rest, sep, j); }
      }
      FindNone(s, sep);
    }
  }

  lemma CoversMiddle(head: string, c: char, rest: string, sep: string, j: nat)
    requires j <= |head| < j + |sep| && sep <= (head + [c] + rest)[j..]
    ensures c in sep
  {
    var s := head + [c] + rest;
    PrefixAt(s, j, sep, |head| - j);
    assert s[|head|] == c;
  }

  lemma OccursAside(head: string, c: char, rest: string, sep: string, j: nat)
    requires sep != "" && c !in sep && j < |head + [c] + rest| && sep <= (head + [c] + rest)[j..]
    ensures Contains(head, sep) || Contains(rest, sep)
  {
    hide Find;
    var s := head + [c] + rest;
    assert j + |sep| <= |s|;
    if j + |sep| <= |head| {
      assert sep == s[j..][..|sep|] == head[j..][..|sep|];
      assert sep <= head[j..];
    } else if j <= |head| {
      CoversMiddle(head, c, rest, sep, j);
    } else {
      var i := j - |head| - 1;
      assert s[j..] == rest[i..];
    }
  }

  /** The first occurrence is replaced, and a text without one is left alone. */
  lemma Replaced(before: string, old_: string, after: string, new_: string)
    requires old_ != "" && forall j :: 0 <= j < |before| ==> !(old_ <= (before + old_ + after)[j..])
    ensures ReplaceFirst(before + old_ + after, old_, new_) == before + new_ + after
  {
    var s := before + old_ + after;
    assert s[|before|..] == old_ + after;
    FindAt(s, old_, |before|);
    assert s[..|before|] == before && s[|before| + |old_|..] == after;
  }

  lemma NotReplaced(s: string, old_: string, new_: string)
    requires old_ != "" && !Contains(s, old_)
    ensures ReplaceFirst(s, old_, new_) == s
  {
  }

  lemma PrefixAt(s: string, j: nat, sep: string, o: nat)
    requires j <= |s| && sep <= s[j..] && o < |sep|
    ensures j + o < |s| && s[j + o] == sep[o]
  {
    assert s[j..][o] == sep[o];
  }

  // ---------- strconv.Atoi ----------

  const MAX_INT := 0x7FFF_FFFF_FFFF_FFFF
  const MIN_INT := -0x8000_0000_0000_0000

  predicate IsDigit(c: char) {
    '0' <= c <= '9'
  }

  function Digit(c: char): (d: nat)
    requires IsDigit(c)
    ensures d < 10
  {
    c as int - '0' as int
  }

  predicate AllDigits(s: string) {
    forall i :: 0 <= i < |s| ==> IsDigit(s[i])
  }

  function DigitsValue(s: string): (n: nat)
    requires AllDigits(s)
  {
    if s == "" then 0 else 10 * DigitsValue(s[..|s| - 1]) + Digit(s[|s| - 1])
  }

  /** A value out of range is reported as an error but saturates; any other error gives 0. */
  datatype Parsed = Parsed(value: int, ok: bool)

  function Atoi(s: string): (p: Parsed) {
    var body := if s != "" && (s[0] == '-' || s[0] == '+') then s[1..] else s;
    if body == "" || !AllDigits(body) then Parsed(0, false)
    else
      var n: int := if s[0] == '-' then 0 - DigitsValue(body) else DigitsValue(body);
      if n > MAX_INT then Parsed(MAX_INT, false)
      else if n < MIN_INT then Parsed(MIN_INT, false)
      else Parsed(n, true)
  }

  /** Decimal notation of an integer. */
  function Decimal(n: int): (s: string)
    decreases n < 0, if n < 0 then -n else n
  {
    if n < 0 then "-" + Decimal(-n)
    else if n < 10 then [('0' as int + n) as char]
    else Decimal(n / 10) + [('0' as int + n % 10) as char]
  }

  lemma {:induction false} DecimalDigits(n: nat)
    ensures Decimal(n) != "" && AllDigits(Decimal(n))
    ensures DigitsValue(Decimal(n)) == n
  {
    if n >= 10 {
      DecimalDigits(n / 10);
      var s := Decimal(n);
      assert s[..|s| - 1] == Decimal(n / 10);
    } else {
      var s := Decimal(n);
      assert s[..|s| - 1] == "";
    }
  }

  /** The nearest 64-bit integer. */
  function Nearest(n: int): (m: int) {
    if n < MIN_INT then MIN_INT else if n > MAX_INT then MAX_INT else n
  }

  /** A signed or unsigned row of digits is read as the number it denotes. */
  lemma AtoiDigits(sign: string, digits: string)
    requires sign == "" || sign == "+" || sign == "-"
    requires digits != "" && AllDigits(digits)
    ensures var n: int := if sign == "-" then 0 - DigitsValue(digits) else DigitsValue(digits);
            Atoi(sign + digits) == Parsed(Nearest(n), MIN_INT <= n <= MAX_INT)
  {
    hide DigitsValue;
    var s := sign + digits;
    if sign == "" {
      assert s == digits;
      assert IsDigit(s[0]);
    } else {
      assert s[0] == sign[0] && s[1..] == digits;
    }
  }

  /** Atoi undoes Decimal exactly on the 64-bit integers; beyond them it reports the nearest one and an error. */
  lemma AtoiDecimal(n: int)
    ensures Atoi(Decimal(n)).ok <==> MIN_INT <= n <= MAX_INT
    ensures Atoi(Decimal(n)).value == Nearest(n)
  {
    var m := if n < 0 then -n else n;
    DecimalDigits(m);
    assert Decimal(n) == (if n < 0 then "-" else "") + Decimal(m);
    hide Atoi, Decimal, DigitsValue, AllDigits;
    AtoiDigits(if n < 0 then "-" else "", Decimal(m));
  }

  /** A text that is not a number, or has no digits, gives 0 and an error. */
  lemma AtoiRejects(sign: string, rest: string)
    requires sign == "" || sign == "+" || sign == "-"
    requires rest == "" || exists k :: 0 <= k < |rest| && !IsDigit(rest[k])
    requires sign == "" && rest != "" ==> rest[0] != '+' && rest[0] != '-'
    ensures Atoi(sign + rest) == Parsed(0, false)
  {
    var s := sign + rest;
    assert rest == "" || !AllDigits(rest);
    if sign == "" {
      assert s == rest;
    } else {
      assert s[0] == sign[0] == (if sign == "+" then '+' else '-');
      assert s[1..] == rest;
    }
  }
}
