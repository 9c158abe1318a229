/** The Python string operations the two applications rely on, written out
    over `seq<char>` (a Dafny `char` is a Unicode scalar value, as a Python
    `str` element is a code point). */
module Text {
  import opened Values

  // ---------------------------------------------------------------------
  // Character classes

  /** Python's `str.isspace()` on one code point. */
  predicate IsSpace(c: char)
  {
    c == ' ' || ('\t' <= c <= '\r') || ('\U{1c}' <= c <= '\U{1f}')
    || c == '\U{85}' || c == '\U{a0}' || c == '\U{1680}'
    || ('\U{2000}' <= c <= '\U{200a}') || c == '\U{2028}' || c == '\U{2029}'
    || c == '\U{202f}' || c == '\U{205f}' || c == '\U{3000}'
  }

  /** An ASCII decimal digit (the model of `str.isdigit()` on one character). */
  predicate IsDigit(c: char)
  {
    '0' <= c <= '9'
  }

  // ---------------------------------------------------------------------
  // strip()

  function StripLeft(s: string): (r: string)
    ensures |r| <= |s| && r == s[|s| - |r|..]
    ensures r == [] || !IsSpace(r[0])
    ensures forall i :: 0 <= i < |s| - |r| ==> IsSpace(s[i])
  {
    if s == [] || !IsSpace(s[0]) then s else StripLeft(s[1..])
  }

  function StripRight(s: string): (r: string)
    ensures |r| <= |s| && r == s[..|r|]
    ensures r == [] || !IsSpace(r[|r| - 1])
    ensures forall i :: |r| <= i < |s| ==> IsSpace(s[i])
  {
    if s == [] || !IsSpace(s[|s| - 1]) then s else StripRight(s[..|s| - 1])
  }

  /** Python's `str.strip()`: the slice of `s` left once leading and trailing
      whitespace is removed. */
  function Strip(s: string): (r: string)
    ensures |r| <= |s|
  {
    StripRight(StripLeft(s))
  }

  /** A stripped string neither starts nor ends with whitespace. */
  lemma {:induction false} StripTrimmed(s: string)
    ensures var r := Strip(s); r == [] || (!IsSpace(r[0]) && !IsSpace(r[|r| - 1]))
  {
    var l := StripLeft(s);
    var r := StripRight(l);
    if r != [] {
      assert r == l[..|r|];
      assert r[0] == l[0];
    }
  }

  /** A string made of whitespace only. */
  predicate IsBlank(s: string)
  {
    forall i :: 0 <= i < |s| ==> IsSpace(s[i])
  }

  /** `line.strip()` is empty exactly when the line is blank. */
  lemma {:induction false} BlankIffAllSpace(s: string)
    ensures Strip(s) == [] <==> IsBlank(s)
  {
    var l := StripLeft(s);
    if !forall i :: 0 <= i < |s| ==> IsSpace(s[i]) {
      var i :| 0 <= i < |s| && !IsSpace(s[i]);
      assert i >= |s| - |l|;
      assert l[i - (|s| - |l|)] == s[i];
      assert l != [];
      assert StripRight(l) != [];
    }
  }

  /** `s.strip()` is the slice of `s` that starts after the leading
      whitespace. */
  lemma {:induction false} StripIsSlice(s: string)
    ensures var a := |s| - |StripLeft(s)|;
            a + |Strip(s)| <= |s| && Strip(s) == s[a..a + |Strip(s)|]
  {
  }

  // ---------------------------------------------------------------------
  // Substrings: `k in s`, `s.find(k)`, `s.startswith(k)`

  predicate OccursAt(s: string, k: string, i: nat)
  {
    i + |k| <= |s| && s[i..i + |k|] == k
  }

  /** `s.find(k, from)`: the first index at or after `from` where `k` occurs. */
  function IndexFrom(s: string, k: string, from: nat): (r: Option<nat>)
    decreases |s| - from
    ensures r.Some? ==> from <= r.value && OccursAt(s, k, r.value)
    ensures r.Some? ==> forall j :: from <= j < r.value ==> !OccursAt(s, k, j)
    ensures r.None? ==> forall j :: from <= j ==> !OccursAt(s, k, j)
  {
    if from + |k| > |s| then None
    else if s[from..from + |k|] == k then Some(from)
    else IndexFrom(s, k, from + 1)
  }

  /** Python's `k in s` on two strings. */
  predicate Contains(s: string, k: string)
  {
    IndexFrom(s, k, 0).Some?
  }

  lemma {:induction false} ContainsIff(s: string, k: string)
    ensures Contains(s, k) <==> exists i :: OccursAt(s, k, i)
  {
    if !Contains(s, k) {
      assert forall j :: 0 <= j ==> !OccursAt(s, k, j);
    }
  }

  /** An occurrence inside a slice is an occurrence in the whole string. */
  lemma {:induction false} SliceOccurs(s: string, k: string, a: nat, b: nat, j: nat)
    requires a <= b <= |s|
    ensures OccursAt(s[a..b], k, j) ==> OccursAt(s, k, a + j)
  {
    if OccursAt(s[a..b], k, j) {
      assert j + |k| <= b - a;
      forall m | 0 <= m < |k|
        ensures k[m] == s[a + j + m]
      {
        assert k[m] == s[a..b][j..j + |k|][m];
      }
    }
  }

  /** A slice of a string in which `k` does not occur holds no `k` either. */
  lemma {:induction false} SliceLacks(s: string, k: string, a: nat, b: nat)
    requires a <= b <= |s| && !Contains(s, k)
    ensures !Contains(s[a..b], k)
  {
    ContainsIff(s, k);
    ContainsIff(s[a..b], k);
    forall j: nat
      ensures !OccursAt(s[a..b], k, j)
    {
      SliceOccurs(s, k, a, b, j);
    }
  }

  /** Stripping a string adds no occurrence of `k`. */
  lemma {:induction false} StripLacks(s: string, k: string)
    requires !Contains(s, k)
    ensures !Contains(Strip(s), k)
  {
    var l := StripLeft(s);
    var r := StripRight(l);
    var a := |s| - |l|;
    assert r == s[a..a + |r|] by {
      assert l == s[a..];
      assert r == l[..|r|];
    }
    SliceLacks(s, k, a, a + |r|);
  }

  /** The first occurrence from `from` on is at `p` when `k` occurs there
      and nowhere in between. */
  lemma {:induction false} IndexFromIs(s: string, k: string, from: nat, p: nat)
    requires from <= p && OccursAt(s, k, p)
    requires forall j: nat :: from <= j < p ==> !OccursAt(s, k, j)
    ensures IndexFrom(s, k, from) == Some(p)
  {
  }

  predicate StartsWith(s: string, p: string)
  {
    |p| <= |s| && s[..|p|] == p
  }

  /** The index of the last occurrence of character `c` (`s.rfind(c)`). */
  function LastIndexOf(s: string, c: char): (r: Option<nat>)
    ensures r.Some? ==> r.value < |s| && s[r.value] == c && c !in s[r.value + 1..]
    ensures r.None? <==> c !in s
  {
    if s == [] then None
    else if s[|s| - 1] == c then Some(|s| - 1)
    else
      var r := LastIndexOf(s[..|s| - 1], c);
      assert s == s[..|s| - 1] + [s[|s| - 1]];
      r
  }

  /** The index of the first occurrence of character `c` (`s.find(c)`). */
  function FirstIndexOf(s: string, c: char): (r: Option<nat>)
    ensures r.Some? ==> r.value < |s| && s[r.value] == c && c !in s[..r.value]
    ensures r.None? <==> c !in s
  {
    if s == [] then None
    else if s[0] == c then Some(0)
    else
      var r := FirstIndexOf(s[1..], c);
      if r.Some? then Some(r.value + 1) else None
  }

  // ---------------------------------------------------------------------
  // split(c) and join

  /** Python's `s.split(c)` for a one-character separator. */
  function Split(s: string, c: char): (r: seq<string>)
    ensures |r| >= 1
    ensures forall k :: 0 <= k < |r| ==> c !in r[k]
  {
    if s == [] then [[]]
    else
      var t := Split(s[1..], c);
      if s[0] == c then [[]] + t else [[s[0]] + t[0]] + t[1..]
  }

  /** Python's `sep.join(ls)`. */
  function Join(ls: seq<string>, sep: string): string
  {
    if |ls| == 0 then []
    else if |ls| == 1 then ls[0]
    else ls[0] + sep + Join(ls[1..], sep)
  }

  /** A join starts with its first piece, followed by the separator when
      more pieces come. */
  lemma {:induction false} JoinHead(ls: seq<string>, sep: string)
    requires |ls| >= 1
    ensures |ls| == 1 ==> Join(ls, sep) == ls[0]
    ensures |ls| >= 2 ==> Join(ls, sep) == ls[0] + sep + Join(ls[1..], sep)
    ensures StartsWith(Join(ls, sep), ls[0])
  {
    if |ls| >= 2 {
      var j := Join(ls, sep);
      assert j[..|ls[0]|] == ls[0];
    }
  }

  lemma {:induction false} SplitNoSeparator(s: string, c: char)
    requires c !in s
    ensures Split(s, c) == [s]
  {
    if s != [] {
      SplitNoSeparator(s[1..], c);
      assert [s[0]] + s[1..] == s;
    }
  }

  lemma {:induction false} SplitAfterSeparator(a: string, c: char, b: string)
    requires c !in a
    ensures Split(a + [c] + b, c) == [a] + Split(b, c)
  {
    var s := a + [c] + b;
    if a == [] {
      assert s[1..] == b;
    } else {
      assert s[1..] == a[1..] + [c] + b;
      SplitAfterSeparator(a[1..], c, b);
      assert [s[0]] + a[1..] == a;
    }
  }

  /** Splitting a join undoes it, when no piece contains the separator. */
  lemma {:induction false} SplitJoin(ls: seq<string>, c: char)
    requires |ls| >= 1
    requires forall k :: 0 <= k < |ls| ==> c !in ls[k]
    ensures Split(Join(ls, [c]), c) == ls
  {
    if |ls| == 1 {
      SplitNoSeparator(ls[0], c);
    } else {
      SplitJoin(ls[1..], c);
      assert Join(ls, [c]) == ls[0] + [c] + Join(ls[1..], [c]);
      SplitAfterSeparator(ls[0], c, Join(ls[1..], [c]));
      assert [ls[0]] + ls[1..] == ls;
    }
  }

  /** Every piece with a space put in front. */
  function Prefixed(ts: seq<string>): (r: seq<string>)
    ensures |r| == |ts| && forall i :: 0 <= i < |ts| ==> r[i] == " " + ts[i]
  {
    seq(|ts|, i requires 0 <= i < |ts| => " " + ts[i])
  }

  lemma {:induction false} JoinPrefixed(ts: seq<string>, c: char)
    requires |ts| >= 1
    ensures Join(Prefixed(ts), [c]) == " " + Join(ts, [c] + " ")
  {
    if |ts| >= 2 {
      JoinPrefixed(ts[1..], c);
      assert Prefixed(ts)[1..] == Prefixed(ts[1..]);
    }
  }

  /** `", ".join(ls)` read back with `split(',')`: when no piece holds a
      comma, the first piece comes back as it was and every later one
      with the space of the separator in front. */
  lemma {:induction false} SplitCommaJoin(ls: seq<string>)
    requires |ls| >= 1
    requires forall k :: 0 <= k < |ls| ==> ',' !in ls[k]
    ensures Split(Join(ls, ", "), ',') == [ls[0]] + Prefixed(ls[1..])
  {
    var pieces := [ls[0]] + Prefixed(ls[1..]);
    assert [','] + " " == ", ";
    JoinSpaced(ls, ',');
    forall k | 0 <= k < |pieces|
      ensures ',' !in pieces[k]
    {
      if k > 0 {
        assert pieces[k] == " " + ls[k];
      }
    }
    SplitJoin(pieces, ',');
  }

  /** With a separator of one character and a space, the later pieces can
      carry the space instead. */
  lemma {:induction false} JoinSpaced(ls: seq<string>, c: char)
    requires |ls| >= 1
    ensures Join(ls, [c] + " ") == Join([ls[0]] + Prefixed(ls[1..]), [c])
  {
    if |ls| == 1 {
      assert [ls[0]] + Prefixed(ls[1..]) == [ls[0]];
    } else {
      JoinSpacedStep(ls[0], ls[1..], c);
      assert [ls[0]] + ls[1..] == ls;
    }
  }

  lemma {:induction false} JoinSpacedStep(x: string, ts: seq<string>, c: char)
    requires |ts| >= 1
    ensures Join([x] + ts, [c] + " ") == Join([x] + Prefixed(ts), [c])
  {
    var j := Join(ts, [c] + " ");
    JoinPrefixed(ts, c);
    JoinCons(x, Prefixed(ts), [c]);
    JoinCons(x, ts, [c] + " ");
    Regroup4(x, [c], " ", j);
  }

  lemma {:induction false} JoinCons(x: string, ts: seq<string>, sep: string)
    requires |ts| >= 1
    ensures Join([x] + ts, sep) == x + sep + Join(ts, sep)
  {
    var l := [x] + ts;
    assert l[1..] == ts;
  }

  /** Joining the pieces of a split gives back the string. */
  lemma {:induction false} JoinSplit(s: string, c: char)
    ensures Join(Split(s, c), [c]) == s
  {
    if s != [] {
      JoinSplit(s[1..], c);
      var t := Split(s[1..], c);
      if s[0] == c {
        assert Join([[]] + t, [c]) == [] + [c] + Join(t, [c]);
      } else {
        var r := [[s[0]] + t[0]] + t[1..];
        if |t| == 1 {
          assert Join(r, [c]) == [s[0]] + t[0];
        } else {
          assert Join(t, [c]) == t[0] + [c] + Join(t[1..], [c]);
          assert r[1..] == t[1..];
          assert Join(r, [c]) == [s[0]] + t[0] + [c] + Join(t[1..], [c]);
        }
      }
    }
  }

  /** The number of occurrences of `c` in `s`. */
  function CountChar(s: string, c: char): nat
  {
    if s == [] then 0 else (if s[0] == c then 1 else 0) + CountChar(s[1..], c)
  }

  /** `s.split(c)` has one more field than `s` has separators, so "at least
      n fields" means "at least n - 1 separators". */
  lemma {:induction false} SplitFieldCount(s: string, c: char)
    ensures |Split(s, c)| == CountChar(s, c) + 1
  {
    if s != [] {
      SplitFieldCount(s[1..], c);
    }
  }

  // ---------------------------------------------------------------------
  // replace

  /** `s.replace(a, b)` for single characters. */
  function ReplaceChar(s: string, a: char, b: char): (r: string)
    ensures |r| == |s|
    ensures forall i :: 0 <= i < |s| ==> r[i] == (if s[i] == a then b else s[i])
  {
    seq(|s|, i requires 0 <= i < |s| => if s[i] == a then b else s[i])
  }

  /** `s.replace(c, '')` for a single character. */
  function DeleteChar(s: string, c: char): (r: string)
    ensures |r| <= |s| && c !in r
  {
    if s == [] then [] else (if s[0] == c then [] else [s[0]]) + DeleteChar(s[1..], c)
  }

  /** Deleting `c` removes every `c` and keeps every other character as
      often as it occurs. */
  lemma {:induction false} DeleteCharCounts(s: string, c: char, x: char)
    ensures CountChar(DeleteChar(s, c), x) == if x == c then 0 else CountChar(s, x)
  {
    if s != [] {
      DeleteCharCounts(s[1..], c, x);
      var t := DeleteChar(s[1..], c);
      if s[0] != c {
        assert ([s[0]] + t)[1..] == t;
      } else {
        assert [] + t == t;
      }
    }
  }

  /** `re.sub(pat, '', s)` for a literal pattern: removes every occurrence,
      scanning left to right and never overlapping. */
  function RemoveAll(s: string, pat: string): (r: string)
    requires |pat| > 0
    decreases |s|
    ensures |r| <= |s|
    ensures !Contains(s, pat) ==> r == s
  {
    if |s| < |pat| then s
    else if s[..|pat|] == pat then
      assert OccursAt(s, pat, 0);
      RemoveAll(s[|pat|..], pat)
    else
      assert forall j: nat :: OccursAt(s[1..], pat, j) ==> OccursAt(s, pat, j + 1);
      ContainsIff(s, pat);
      ContainsIff(s[1..], pat);
      [s[0]] + RemoveAll(s[1..], pat)
  }

  /** Once `pat` occurs in `s`, removing it shortens `s` by at least its
      length. */
  lemma {:induction false} RemoveAllShrinks(s: string, pat: string)
    requires |pat| > 0 && Contains(s, pat)
    decreases |s|
    ensures |RemoveAll(s, pat)| <= |s| - |pat|
  {
    var i := IndexFrom(s, pat, 0).value;
    if s[..|pat|] != pat {
      assert i != 0;
      assert OccursAt(s[1..], pat, i - 1) by {
        assert s[1..][i - 1..i - 1 + |pat|] == s[i..i + |pat|];
      }
      ContainsIff(s[1..], pat);
      RemoveAllShrinks(s[1..], pat);
    }
  }

  // ---------------------------------------------------------------------
  // lower() and slicing

  function LowerChar(c: char): char
  {
    if 'A' <= c <= 'Z' then (c as int + 32) as char else c
  }

  /** `s.lower()` on the ASCII letters; other code points are left as they are. */
  function Lower(s: string): (r: string)
    ensures |r| == |s|
    ensures forall i :: 0 <= i < |r| ==> r[i] == LowerChar(s[i])
    ensures forall i :: 0 <= i < |r| ==> !('A' <= r[i] <= 'Z')
  {
    seq(|s|, i requires 0 <= i < |s| => LowerChar(s[i]))
  }

  /** `s[:n]`: the first `n` characters, or all of `s` when it is shorter. */
  function Take(s: string, n: nat): (r: string)
    ensures |r| <= n && |r| <= |s| && r == s[..|r|]
    ensures |s| <= n ==> r == s
    ensures n <= |s| ==> |r| == n
  {
    if |s| <= n then s else s[..n]
  }

  // ---------------------------------------------------------------------
  // str(n) and reading a number back

  function DigitChar(d: nat): char
    requires d < 10
  {
    ('0' as int + d) as char
  }

  function DigitValue(c: char): nat
    requires IsDigit(c)
  {
    c as int - '0' as int
  }

  /** `str(n)` for a natural number. */
  function NatToString(n: nat): (r: string)
    decreases n
    ensures |r| >= 1
    ensures forall i :: 0 <= i < |r| ==> IsDigit(r[i])
  {
    if n < 10 then [DigitChar(n)] else NatToString(n / 10) + [DigitChar(n % 10)]
  }

  /** `str(i)` for any integer. */
  function IntToString(i: int): string
  {
    if i < 0 then "-" + NatToString(-i) else NatToString(i)
  }

  /** The value of a string of decimal digits. */
  function DigitsValue(s: string): nat
    requires forall i :: 0 <= i < |s| ==> IsDigit(s[i])
  {
    if s == [] then 0 else DigitsValue(s[..|s| - 1]) * 10 + DigitValue(s[|s| - 1])
  }

  /** Reading back `str(n)` gives `n`. */
  lemma {:induction false} DigitsValueOfNatToString(n: nat)
    ensures DigitsValue(NatToString(n)) == n
  {
    if n >= 10 {
      DigitsValueOfNatToString(n / 10);
      var s := NatToString(n);
      assert s[..|s| - 1] == NatToString(n / 10);
    }
  }

  /** `str` is injective on natural numbers. */
  lemma {:induction false} NatToStringInjective(m: nat, n: nat)
    ensures NatToString(m) == NatToString(n) ==> m == n
  {
    DigitsValueOfNatToString(m);
    DigitsValueOfNatToString(n);
  }

  /** The longest prefix of `s` made of digits. */
  function LeadingDigits(s: string): (r: string)
    ensures |r| <= |s| && r == s[..|r|]
    ensures forall i :: 0 <= i < |r| ==> IsDigit(s[i])
    ensures |r| < |s| ==> !IsDigit(s[|r|])
  {
    if s == [] || !IsDigit(s[0]) then [] else [s[0]] + LeadingDigits(s[1..])
  }

  /** The digits of a number are exactly the leading digits of anything that
      continues it with a non-digit. */
  lemma {:induction false} LeadingDigitsOfDigits(d: string, rest: string)
    requires forall i :: 0 <= i < |d| ==> IsDigit(d[i])
    requires rest == [] || !IsDigit(rest[0])
    ensures LeadingDigits(d + rest) == d
  {
    if d != [] {
      assert (d + rest)[1..] == d[1..] + rest;
      LeadingDigitsOfDigits(d[1..], rest);
    } else {
      assert d + rest == rest;
    }
  }

  // ---------------------------------------------------------------------
  // Proof steps: facts about sequences (regrouping a concatenation, cutting
  // or dropping part of one) that the proofs above and in the other modules
  // cite as single steps. They have no counterpart in the applications.

  /** Concatenation regrouped. */
  lemma {:induction false} Regroup<T>(x: seq<T>, y: seq<T>, z: seq<T>)
    ensures x + (y + z) == x + y + z
  {
  }

  /** Appending leaves a prefix as it was. */
  lemma {:induction false} PrefixKept(x: string, r: string, n: nat)
    requires n <= |x|
    ensures (x + r)[..n] == x[..n]
  {
  }

  /** Dropping the head of a concatenation. */
  lemma {:induction false} DropHead(a: string, b: string, c: string)
    ensures (a + b + c)[|a|..] == b + c
  {
  }

  lemma {:induction false} Regroup4(a: string, b: string, c: string, d: string)
    ensures a + b + (c + d) == a + (b + c) + d
  {
  }

  /** A string is the text before position `i`, the character there and the
      text after it. */
  lemma {:induction false} CutAt(s: string, i: nat)
    requires i < |s|
    ensures s == s[..i] + [s[i]] + s[i + 1..]
  {
  }

  lemma {:induction false} Glue(a: string, o: char, b: string, c: char, d: string)
    ensures a + [o] + (b + [c] + d) == a + [o] + b + [c] + d
  {
  }

  /** A slice of a string without `c` has no `c`. */
  lemma {:induction false} SliceLacksChar(s: string, c: char, a: nat, b: nat)
    requires a <= b <= |s| && c !in s
    ensures c !in s[a..b]
  {
    forall k | 0 <= k < b - a
      ensures s[a..b][k] != c
    {
      assert s[a..b][k] == s[a + k];
    }
  }

  /** A slice cut at two inner points. */
  lemma {:induction false} SliceSplit3(s: string, a: nat, b: nat, c: nat, d: nat)
    requires a <= b <= c <= d <= |s|
    ensures s[a..d] == s[a..b] + s[b..c] + s[c..d]
  {
  }
}
