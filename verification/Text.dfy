/** String helpers the extension leans on: decimal rendering with
    JavaScript's `String(n)` and `padStart(width, '0')`, the `includes`,
    `split` and `join` operations on literal separators, ASCII lower-casing,
    and the default (code-unit lexicographic) order used by `Array.sort`. */
module Text {

  datatype Option<T> = None | Some(value: T)

  // ---------------------------------------------------------------------
  // Decimal digits
  // ---------------------------------------------------------------------

  predicate IsDigit(c: char) { '0' <= c <= '9' }

  predicate AllDigits(s: string) { forall i :: 0 <= i < |s| ==> IsDigit(s[i]) }

  function DigitChar(d: nat): (c: char)
    requires d < 10
    ensures IsDigit(c) && c as int - '0' as int == d
  {
    ('0' as int + d) as char
  }

  /** `String(n)` for a non-negative integer: no leading zeros. */
  function NatToString(n: nat): (s: string)
    ensures 1 <= |s| && AllDigits(s)
  {
    if n < 10 then [DigitChar(n)] else NatToString(n / 10) + [DigitChar(n % 10)]
  }

  /** `String(i)` for any integer: a minus sign in front of negatives. */
  function IntToString(i: int): (s: string)
    ensures i < 0 ==> s == "-" + NatToString(-i)
    ensures 0 <= i ==> s == NatToString(i)
  {
    if i < 0 then "-" + NatToString(-i) else NatToString(i)
  }

  /** The value a string of decimal digits denotes (read back). */
  function DigitsValue(s: string): nat
    requires AllDigits(s)
  {
    if s == [] then 0 else DigitsValue(s[..|s| - 1]) * 10 + (s[|s| - 1] as int - '0' as int)
  }

  function Pow10(k: nat): nat
  {
    if k == 0 then 1 else 10 * Pow10(k - 1)
  }

  lemma {:induction false} NatToStringValue(n: nat)
    ensures DigitsValue(NatToString(n)) == n
  {
    if 10 <= n {
      NatToStringValue(n / 10);
      var s := NatToString(n);
      assert s[..|s| - 1] == NatToString(n / 10);
    }
  }

  lemma {:induction false} NatToStringLength(n: nat, k: nat)
    requires 1 <= k && n < Pow10(k)
    ensures |NatToString(n)| <= k
  {
    if 10 <= n {
      assert 2 <= k;
      NatToStringLength(n / 10, k - 1);
    }
  }

  function Zeros(k: nat): (z: string)
    ensures |z| == k && AllDigits(z)
  {
    seq(k, _ => '0')
  }

  /** `s.padStart(width, '0')`. */
  function ZeroPad(s: string, width: nat): (r: string)
    ensures |r| == if |s| < width then width else |s|
    ensures |s| < width ==> r == Zeros(width - |s|) + s
    ensures width <= |s| ==> r == s
  {
    if |s| < width then Zeros(width - |s|) + s else s
  }

  lemma {:induction false} ZerosValue(k: nat)
    ensures DigitsValue(Zeros(k)) == 0
  {
    if 0 < k {
      assert Zeros(k)[..k - 1] == Zeros(k - 1);
      ZerosValue(k - 1);
    }
  }

  lemma {:induction false} LeadingZerosValue(k: nat, s: string)
    requires AllDigits(s)
    ensures AllDigits(Zeros(k) + s) && DigitsValue(Zeros(k) + s) == DigitsValue(s)
  {
    if s == [] {
      assert Zeros(k) + s == Zeros(k);
      ZerosValue(k);
    } else {
      var t := Zeros(k) + s;
      assert t[..|t| - 1] == Zeros(k) + s[..|s| - 1];
      LeadingZerosValue(k, s[..|s| - 1]);
    }
  }

  /** `String(n).padStart(width, '0')`. */
  function PaddedNat(n: nat, width: nat): string
  {
    ZeroPad(NatToString(n), width)
  }

  /** A number below `10^width` fills exactly `width` digits and reads back. */
  lemma PaddedNatDigits(n: nat, width: nat)
    requires 1 <= width && n < Pow10(width)
    ensures |PaddedNat(n, width)| == width
    ensures AllDigits(PaddedNat(n, width))
    ensures DigitsValue(PaddedNat(n, width)) == n
  {
    var s := NatToString(n);
    NatToStringLength(n, width);
    NatToStringValue(n);
    if |s| < width {
      LeadingZerosValue(width - |s|, s);
    }
  }

  // ---------------------------------------------------------------------
  // includes / split / join
  // ---------------------------------------------------------------------

  predicate OccursAt(s: string, sub: string, i: nat)
  {
    i + |sub| <= |s| && s[i..i + |sub|] == sub
  }

  /** The first position at or after `from` where `sub` occurs (`indexOf`). */
  function FindFrom(s: string, sub: string, from: nat): (r: Option<nat>)
    requires from <= |s|
    ensures r.Some? ==> from <= r.value <= |s| && OccursAt(s, sub, r.value)
    ensures forall j :: from <= j <= |s| && (r.None? || j < r.value) ==> !OccursAt(s, sub, j)
    decreases |s| - from
  {
    if OccursAt(s, sub, from) then Some(from)
    else if from == |s| then None
    else FindFrom(s, sub, from + 1)
  }

  /** `s.includes(sub)`. */
  predicate Contains(s: string, sub: string)
  {
    FindFrom(s, sub, 0).Some?
  }

  lemma ContainsAt(s: string, sub: string, i: nat)
    requires OccursAt(s, sub, i)
    ensures Contains(s, sub)
  {
  }

  /** A piece occurs in any text that contains it between two others. */
  lemma InfixOccurs(a: string, b: string, c: string)
    ensures Contains(a + b + c, b)
  {
    assert (a + b + c)[|a|..|a| + |b|] == b;
    ContainsAt(a + b + c, b, |a|);
  }

  /** The first occurrence is the only one whose prefix is free of `sub`. */
  lemma FirstOccurrence(s: string, sub: string, i: nat)
    requires OccursAt(s, sub, i)
    requires forall j :: 0 <= j < i ==> !OccursAt(s, sub, j)
    ensures FindFrom(s, sub, 0) == Some(i)
  {
  }

  /** `s.split(sep)` for a non-empty literal separator. */
  function Split(s: string, sep: string): (parts: seq<string>)
    requires 0 < |sep|
    ensures 1 <= |parts|
    decreases |s|
  {
    match FindFrom(s, sep, 0)
    case None => [s]
    case Some(i) => [s[..i]] + Split(s[i + |sep|..], sep)
  }

  /** `parts.join(sep)`; the empty list joins to the empty string. */
  function Join(parts: seq<string>, sep: string): string
  {
    if |parts| == 0 then ""
    else if |parts| == 1 then parts[0]
    else parts[0] + sep + Join(parts[1..], sep)
  }

  /** The first piece of a split is the text before the separator's first
      occurrence, and there is a second piece exactly when it occurs. */
  lemma SplitHead(s: string, sep: string, i: nat)
    requires 0 < |sep| && FindFrom(s, sep, 0) == Some(i)
    ensures 2 <= |Split(s, sep)| && Split(s, sep)[0] == s[..i]
    ensures Split(s, sep)[1] == Split(s[i + |sep|..], sep)[0]
  {
  }

  lemma SplitWhole(s: string, sep: string)
    requires 0 < |sep| && FindFrom(s, sep, 0).None?
    ensures Split(s, sep) == [s]
  {
  }

  /** Splitting a join on a one-character separator gives the pieces back,
      provided no piece contains that character. */
  lemma {:induction false} SplitJoin(parts: seq<string>, c: char)
    requires 1 <= |parts|
    requires forall p :: p in parts ==> c !in p
    ensures Split(Join(parts, [c]), [c]) == parts
  {
    assert parts[0] in parts;
    if |parts| == 1 {
      SplitOne(parts[0], c);
    } else {
      forall p | p in parts[1..] ensures c !in p { assert p in parts; }
      SplitJoin(parts[1..], c);
      SplitStep(parts[0], c, Join(parts[1..], [c]));
      assert parts == [parts[0]] + parts[1..];
    }
  }

  /** A character absent from `s` does not occur inside `s`, whatever follows. */
  lemma CharFree(s: string, c: char, t: string)
    requires c !in s
    ensures forall j :: 0 <= j < |s| ==> !OccursAt(s + t, [c], j)
  {
    forall j | 0 <= j < |s| ensures !OccursAt(s + t, [c], j) {
      assert (s + t)[j..j + 1][0] == s[j] && s[j] in s;
    }
  }

  lemma SplitOne(s: string, c: char)
    requires c !in s
    ensures Split(s, [c]) == [s]
  {
    CharFree(s, c, []);
    assert s + [] == s;
    SplitWhole(s, [c]);
  }

  lemma SplitStep(head: string, c: char, rest: string)
    requires c !in head
    ensures Split(head + [c] + rest, [c]) == [head] + Split(rest, [c])
  {
    var s := head + [c] + rest;
    assert s == head + ([c] + rest);
    CharFree(head, c, [c] + rest);
    assert OccursAt(s, [c], |head|) by { assert s[|head|..|head| + 1] == [c]; }
    FirstOccurrence(s, [c], |head|);
    assert s[..|head|] == head;
    assert s[|head| + 1..] == rest;
  }

  // ---------------------------------------------------------------------
  // ASCII lower case
  // ---------------------------------------------------------------------

  function LowerChar(c: char): char
  {
    if 'A' <= c <= 'Z' then (c as int - 'A' as int + 'a' as int) as char else c
  }

  /** `toLowerCase()`, restricted to the ASCII letters. */
  function ToLower(s: string): (r: string)
    ensures |r| == |s| && forall i :: 0 <= i < |s| ==> r[i] == LowerChar(s[i])
  {
    seq(|s|, i requires 0 <= i < |s| => LowerChar(s[i]))
  }

  /** A lower-case pattern found in `s` is still found after lower-casing,
      so a case-insensitive check refuses everything a case-sensitive one
      refuses. */
  lemma ContainsLower(s: string, sub: string)
    requires ToLower(sub) == sub
    requires Contains(s, sub)
    ensures Contains(ToLower(s), sub)
  {
    var i := FindFrom(s, sub, 0).value;
    var t := ToLower(s);
    forall k | 0 <= k < |sub| ensures t[i + k] == sub[k] {
      assert s[i + k] == s[i..i + |sub|][k];
      assert LowerChar(sub[k]) == ToLower(sub)[k];
    }
    assert t[i..i + |sub|] == sub;
    ContainsAt(t, sub, i);
  }

  // ---------------------------------------------------------------------
  // Default sort order: lexicographic on characters, a prefix first
  // ---------------------------------------------------------------------

  predicate LexLessEq(a: string, b: string)
    decreases |a|
  {
    |a| == 0 || (0 < |b| && (a[0] < b[0] || (a[0] == b[0] && LexLessEq(a[1..], b[1..]))))
  }

  lemma {:induction false} LexTotal(a: string, b: string)
    ensures LexLessEq(a, b) || LexLessEq(b, a)
    decreases |a|
  {
    if 0 < |a| && 0 < |b| && a[0] == b[0] {
      LexTotal(a[1..], b[1..]);
    }
  }

  lemma {:induction false} LexAntisymmetric(a: string, b: string)
    requires LexLessEq(a, b) && LexLessEq(b, a)
    ensures a == b
    decreases |a|
  {
    if 0 < |a| {
      LexAntisymmetric(a[1..], b[1..]);
      assert a == [a[0]] + a[1..];
      assert b == [b[0]] + b[1..];
    }
  }

  lemma {:induction false} LexTransitive(a: string, b: string, c: string)
    requires LexLessEq(a, b) && LexLessEq(b, c)
    ensures LexLessEq(a, c)
    decreases |a|
  {
    if 0 < |a| && a[0] == b[0] && b[0] == c[0] {
      LexTransitive(a[1..], b[1..], c[1..]);
    }
  }

  predicate IsLeast(m: string, s: set<string>)
  {
    m in s && forall y :: y in s ==> LexLessEq(m, y)
  }

  lemma {:induction false} LeastExists(s: set<string>)
    requires s != {}
    ensures exists m :: IsLeast(m, s)
    decreases s
  {
    var x :| x in s;
    if s != {x} {
      var rest := s - {x};
      LeastExists(rest);
      var m :| IsLeast(m, rest);
      LexTotal(x, m);
      if LexLessEq(x, m) {
        forall y | y in s ensures LexLessEq(x, y) {
          if y != x { LexTransitive(x, m, y); } else { LexTotal(x, x); }
        }
        assert IsLeast(x, s);
      } else {
        assert IsLeast(m, s);
      }
    } else {
      LexTotal(x, x);
      assert IsLeast(x, s);
    }
  }

  lemma LeastUnique(m: string, m': string, s: set<string>)
    requires IsLeast(m, s) && IsLeast(m', s)
    ensures m == m'
  {
    LexAntisymmetric(m, m');
  }

  ghost function Least(s: set<string>): (m: string)
    requires s != {}
    ensures IsLeast(m, s)
  {
    LeastExists(s);
    var m :| IsLeast(m, s);
    m
  }

  /** The elements of a finite set of strings in ascending order
      (`Object.keys(o).sort()`). */
  ghost function SortedKeys(s: set<string>): seq<string>
    decreases s
  {
    if s == {} then [] else [Least(s)] + SortedKeys(s - {Least(s)})
  }

  lemma SortedKeysHead(s: set<string>, m: string)
    requires IsLeast(m, s)
    ensures SortedKeys(s) == [m] + SortedKeys(s - {m})
  {
    LeastUnique(m, Least(s), s);
  }

  predicate StrictlyAscending(keys: seq<string>)
  {
    forall i, j :: 0 <= i < j < |keys| ==> LexLessEq(keys[i], keys[j]) && keys[i] != keys[j]
  }

  /** The sorted keys list every element once, in strictly ascending order. */
  lemma {:induction false} SortedKeysSpec(s: set<string>)
    ensures StrictlyAscending(SortedKeys(s))
    ensures forall k :: k in SortedKeys(s) <==> k in s
    ensures |SortedKeys(s)| == |s|
    decreases s
  {
    if s != {} {
      var m := Least(s);
      SortedKeysSpec(s - {m});
      var r := SortedKeys(s);
      forall i, j | 0 <= i < j < |r| ensures LexLessEq(r[i], r[j]) && r[i] != r[j] {
        if i == 0 {
          assert r[j] in SortedKeys(s - {m});
        }
      }
    }
  }

  /** Computes `SortedKeys` by taking the least remaining key each round. */
  method SortKeys(s: set<string>) returns (keys: seq<string>)
    ensures keys == SortedKeys(s)
  {
    keys := [];
    var rest := s;
    while rest != {}
      invariant keys + SortedKeys(rest) == SortedKeys(s)
      decreases rest
    {
      LeastExists(rest);
      var m :| m in rest && IsLeast(m, rest);
      SortedKeysHead(rest, m);
      keys := keys + [m];
      rest := rest - {m};
    }
  }

  /** Regrouping a concatenation of three sequences. */
  lemma AppendAssoc<T>(a: seq<T>, b: seq<T>, c: seq<T>)
    ensures a + b + c == a + (b + c)
  {
  }

  // ---------------------------------------------------------------------
  // Markup built piece by piece
  // ---------------------------------------------------------------------

  /** The pieces `f` renders for `xs`, concatenated in order (a loop doing
      `html += f(x)`). */
  function ConcatMap<T>(f: T -> string, xs: seq<T>): string
  {
    if xs == [] then "" else ConcatMap(f, xs[..|xs| - 1]) + f(xs[|xs| - 1])
  }

  lemma ConcatMapSnoc<T>(f: T -> string, xs: seq<T>, x: T)
    ensures ConcatMap(f, xs + [x]) == ConcatMap(f, xs) + f(x)
  {
    assert (xs + [x])[..|xs|] == xs;
  }

  lemma ConcatMapSingle<T>(f: T -> string, x: T)
    ensures ConcatMap(f, [x]) == f(x)
  {
    ConcatMapSnoc(f, [], x);
    assert [] + [x] == [x];
  }

  /** Rendering distributes over concatenation. */
  lemma {:induction false} ConcatMapAppend<T>(f: T -> string, xs: seq<T>, ys: seq<T>)
    ensures ConcatMap(f, xs + ys) == ConcatMap(f, xs) + ConcatMap(f, ys)
    decreases |ys|
  {
    if ys == [] {
      assert xs + ys == xs;
    } else {
      var init, last := ys[..|ys| - 1], ys[|ys| - 1];
      assert ys == init + [last];
      assert xs + ys == (xs + init) + [last];
      ConcatMapSnoc(f, xs + init, last);
      ConcatMapAppend(f, xs, init);
      AppendAssoc(ConcatMap(f, xs), ConcatMap(f, init), f(last));
    }
  }

  /** When no piece is empty, the result is empty exactly for no input, and
      otherwise starts with the first piece's first character. */
  lemma {:induction false} ConcatMapHead<T>(f: T -> string, xs: seq<T>)
    requires forall x :: 0 < |f(x)|
    ensures ConcatMap(f, xs) == "" <==> xs == []
    ensures xs != [] ==> ConcatMap(f, xs)[0] == f(xs[0])[0]
    decreases |xs|
  {
    if xs != [] {
      var init := xs[..|xs| - 1];
      ConcatMapHead(f, init);
      if init != [] {
        assert init[0] == xs[0];
      }
    }
  }
}
