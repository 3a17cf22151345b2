/**
  Text as the services handle it: stripping, splitting, searching and decimal numbers, on
  sequences of characters. White space and digits are the ASCII ones.
 */
module Text {

  predicate IsSpace(c: char) { c in {' ', '\t', '\n', '\r', '\U{000B}', '\U{000C}'} }

  predicate IsDigit(c: char) { '0' <= c <= '9' }

  // ----- Stripping -----

  function LStrip(s: string): string { if s != "" && IsSpace(s[0]) then LStrip(s[1..]) else s }

  function RStrip(s: string): string {
    if s != "" && IsSpace(s[|s| - 1]) then RStrip(s[..|s| - 1]) else s
  }

  function Strip(s: string): string { RStrip(LStrip(s)) }

  predicate Trimmed(s: string) { s == "" || (!IsSpace(s[0]) && !IsSpace(s[|s| - 1])) }

  lemma {:induction false} RStripPrefix(s: string)
    ensures RStrip(s) <= s && (RStrip(s) == "" || !IsSpace(RStrip(s)[|RStrip(s)| - 1]))
  {
    if s != "" && IsSpace(s[|s| - 1]) { RStripPrefix(s[..|s| - 1]); }
  }

  lemma {:induction false} LStripHead(s: string)
    ensures |LStrip(s)| <= |s| && LStrip(s) == s[|s| - |LStrip(s)|..]
    ensures LStrip(s) == "" || !IsSpace(LStrip(s)[0])
  {
    if s != "" && IsSpace(s[0]) { LStripHead(s[1..]); }
  }

  lemma StripIsTrimmed(s: string)
    ensures Trimmed(Strip(s))
    ensures Strip(s) == s <==> Trimmed(s)
  {
    LStripHead(s);
    RStripPrefix(LStrip(s));
  }

  // ----- Letters and ends -----

  function LowerChar(c: char): char { if 'A' <= c <= 'Z' then (c as int + 32) as char else c }

  function Lower(s: string): (r: string)
    ensures |r| == |s| && forall k :: 0 <= k < |s| ==> r[k] == LowerChar(s[k])
  {
    seq(|s|, k requires 0 <= k < |s| => LowerChar(s[k]))
  }

  predicate EndsWith(s: string, suffix: string) { |suffix| <= |s| && s[|s| - |suffix|..] == suffix }

  lemma Assoc(a: string, b: string, c: string)
    ensures (a + b) + c == a + (b + c)
  {
  }

  lemma DropFront(a: string, b: string)
    ensures (a + b)[|a|..] == b
  {
  }

  // ----- Searching -----

  predicate OccursAt(s: string, m: string, i: nat) { i + |m| <= |s| && s[i..i + |m|] == m }

  predicate Contains(s: string, m: string) { exists i: nat :: i <= |s| && OccursAt(s, m, i) }

  /** The index of the first occurrence, or -1. */
  function Find(s: string, m: string): (i: int)
    ensures -1 <= i
    ensures i >= 0 ==> OccursAt(s, m, i)
  {
    FindFrom(s, m, 0)
  }

  function FindFrom(s: string, m: string, from: nat): (i: int)
    ensures -1 <= i
    ensures i >= 0 ==> OccursAt(s, m, i)
    decreases |s| + 1 - from
  {
    if from > |s| then -1 else if OccursAt(s, m, from) then from else FindFrom(s, m, from + 1)
  }

  predicate IsFirst(s: string, m: string, i: nat) {
    OccursAt(s, m, i) && forall j: nat :: j < i ==> !OccursAt(s, m, j)
  }

  lemma {:induction false} FindFromMeaning(s: string, m: string, from: nat)
    requires forall j: nat :: j < from ==> !OccursAt(s, m, j)
    ensures FindFrom(s, m, from) >= 0 ==> IsFirst(s, m, FindFrom(s, m, from))
    ensures FindFrom(s, m, from) < 0 <==> forall j: nat :: !OccursAt(s, m, j)
    decreases |s| + 1 - from
  {
    if from <= |s| && !OccursAt(s, m, from) { FindFromMeaning(s, m, from + 1); }
  }

  lemma FindMeaning(s: string, m: string)
    ensures Find(s, m) >= 0 ==> IsFirst(s, m, Find(s, m))
    ensures Find(s, m) < 0 <==> !Contains(s, m)
  {
    FindFromMeaning(s, m, 0);
    if !Contains(s, m) {
      forall j: nat ensures !OccursAt(s, m, j) {}
    }
  }

  lemma FirstIsFound(s: string, m: string, i: nat)
    requires IsFirst(s, m, i)
    ensures Find(s, m) == i
  {
    FindMeaning(s, m);
    assert OccursAt(s, m, i);
  }

  lemma OccursInExtension(s: string, t: string, m: string, i: nat)
    requires i + |m| <= |s|
    ensures OccursAt(s + t, m, i) <==> OccursAt(s, m, i)
  {
    assert (s + t)[i..i + |m|] == s[i..i + |m|];
  }

  /** Text appended after a first occurrence does not move it. */
  lemma FirstInExtension(s: string, t: string, m: string, i: nat)
    requires IsFirst(s, m, i)
    ensures IsFirst(s + t, m, i)
  {
    OccursInExtension(s, t, m, i);
    forall j: nat | j < i ensures !OccursAt(s + t, m, j) {
      OccursInExtension(s, t, m, j);
    }
  }

  lemma FindGrows(s: string, t: string, m: string)
    requires Find(s, m) >= 0
    ensures Find(s + t, m) == Find(s, m)
  {
    FindMeaning(s, m);
    FirstInExtension(s, t, m, Find(s, m));
    FirstIsFound(s + t, m, Find(s, m));
  }

  lemma OccursChars(s: string, m: string, i: nat, j: nat)
    requires i <= j < i + |m| && j < |s|
    ensures OccursAt(s, m, i) ==> s[j] == m[j - i]
  {
    if OccursAt(s, m, i) { assert s[i..i + |m|][j - i] == s[j]; }
  }

  lemma ContainsSameLength(s: string, m: string)
    requires |s| == |m| && Contains(s, m)
    ensures s == m
  {
    var i: nat :| i <= |s| && OccursAt(s, m, i);
    assert s[0..|m|] == s;
  }

  /** Text put in front moves an occurrence by its length. */
  lemma OccursBehind(s: string, t: string, m: string, i: nat)
    ensures OccursAt(s + t, m, |s| + i) <==> OccursAt(t, m, i)
  {
    if i + |m| <= |t| {
      assert (s + t)[|s| + i..|s| + i + |m|] == t[i..i + |m|];
    }
  }

  /** Text in front in which no occurrence starts moves the first occurrence by its length. */
  lemma FindBehind(s: string, t: string, m: string)
    requires forall i: nat :: i < |s| ==> !OccursAt(s + t, m, i)
    ensures Find(s + t, m) == if Find(t, m) < 0 then -1 else |s| + Find(t, m)
  {
    FindMeaning(t, m);
    FindMeaning(s + t, m);
    if Find(t, m) >= 0 {
      OccursBehind(s, t, m, Find(t, m));
      forall i: nat | i < |s| + Find(t, m) ensures !OccursAt(s + t, m, i) {
        if i >= |s| { OccursBehind(s, t, m, i - |s|); }
      }
      FirstIsFound(s + t, m, |s| + Find(t, m));
    } else if Find(s + t, m) >= 0 {
      OccursBehind(s, t, m, Find(s + t, m) - |s|);
    }
  }

  /** An occurrence of `m` in two texts around a character it does not contain is in one of them. */
  lemma ContainsAcross(s: string, c: char, t: string, m: string)
    requires m != "" && c !in m && Contains(s + [c] + t, m)
    ensures Contains(s, m) || Contains(t, m)
  {
    var whole := s + [c] + t;
    var i: nat :| i <= |whole| && OccursAt(whole, m, i);
    forall j | i <= j < i + |m| ensures whole[j] == m[j - i] { assert whole[i..i + |m|][j - i] == whole[j]; }
    assert whole[|s|] == c;
    if i + |m| <= |s| {
      assert whole == s + ([c] + t);
      OccursInExtension(s, [c] + t, m, i);
    } else if i > |s| {
      assert whole == (s + [c]) + t;
      OccursBehind(s + [c], t, m, i - |s| - 1);
    }
  }

  // ----- Decimal numbers -----

  predicate Digits(s: string) { s != "" && forall i :: 0 <= i < |s| ==> IsDigit(s[i]) }

  function DigitValue(c: char): nat
    requires IsDigit(c)
  {
    c as int - '0' as int
  }

  function ToNat(s: string): nat
    requires forall i :: 0 <= i < |s| ==> IsDigit(s[i])
  {
    if s == "" then 0 else 10 * ToNat(s[..|s| - 1]) + DigitValue(s[|s| - 1])
  }

  function FromNat(n: nat): (s: string)
    ensures Digits(s)
    ensures ToNat(s) == n
  {
    var last := [(n % 10 + '0' as int) as char];
    if n < 10 then last
    else
      var s := FromNat(n / 10) + last;
      assert s[..|s| - 1] == FromNat(n / 10);
      s
  }

  lemma {:induction false} ToNatMonotone(s: string, k: nat)
    requires (forall i :: 0 <= i < |s| ==> IsDigit(s[i])) && k <= |s|
    ensures ToNat(s[..k]) <= ToNat(s)
    ensures k < |s| && ToNat(s) > 0 ==> ToNat(s[..k]) < ToNat(s)
  {
    if k < |s| {
      assert s[..|s| - 1][..k] == s[..k];
      ToNatMonotone(s[..|s| - 1], k);
    } else {
      assert s[..k] == s;
    }
  }

  // ----- Splitting at a character -----

  /** The index of the first `c`, or -1. */
  function IndexOf(s: string, c: char): (i: int)
    ensures -1 <= i < |s|
    ensures i >= 0 ==> s[i] == c && forall k :: 0 <= k < i ==> s[k] != c
    ensures i < 0 <==> c !in s
  {
    if s == "" then -1
    else if s[0] == c then 0
    else
      var i := IndexOf(s[1..], c);
      assert forall k :: 1 <= k < |s| ==> s[k] == s[1..][k - 1];
      if i < 0 then -1 else i + 1
  }

  /** The index of the last `c`, or -1. */
  function LastIndexOf(s: string, c: char): (i: int)
    ensures -1 <= i < |s|
    ensures i >= 0 ==> s[i] == c && forall k :: i < k < |s| ==> s[k] != c
    ensures i < 0 <==> c !in s
  {
    if s == "" then -1
    else if s[|s| - 1] == c then |s| - 1
    else
      var i := LastIndexOf(s[..|s| - 1], c);
      assert forall k :: 0 <= k < |s| - 1 ==> s[k] == s[..|s| - 1][k];
      i
  }

  lemma LastIndexIsUnique(s: string, c: char, i: nat)
    requires i < |s| && s[i] == c && forall k :: i < k < |s| ==> s[k] != c
    ensures LastIndexOf(s, c) == i
  {
  }

  lemma LastIndexBefore(s: string, c: char, i: nat)
    requires forall k :: i <= k < |s| ==> s[k] != c
    ensures LastIndexOf(s, c) < i
  {
  }

  lemma NotInSuffix(s: string, c: char, i: nat, j: nat)
    requires i <= j <= |s| && c !in s[i..]
    ensures c !in s[j..]
  {
    forall k | 0 <= k < |s[j..]| ensures s[j..][k] != c { assert s[j..][k] == s[i..][j - i + k]; }
  }

  lemma NotInBoth(a: string, b: string, c: char)
    requires c !in a && c !in b
    ensures c !in a + b
  {
  }

  lemma {:induction false} NoneAfterLast(s: string, c: char)
    ensures c !in s[LastIndexOf(s, c) + 1..]
  {
    if s == "" {
    } else if s[|s| - 1] != c {
      var front, last, i := s[..|s| - 1], s[|s| - 1], LastIndexOf(s, c);
      NoneAfterLast(front, c);
      assert front + [last] == s && LastIndexOf(front, c) == i;
      assert s[i + 1..] == front[i + 1..] + [last];
      NotInBoth(front[i + 1..], [last], c);
    } else {
      assert LastIndexOf(s, c) == |s| - 1;
    }
  }

  /** What follows the last `c` has none, and starts behind every other one. */
  lemma AfterLast(s: string, c: char, from: nat)
    requires from <= |s|
    ensures c !in s[LastIndexOf(s, c) + 1..]
    ensures c in s[from..] ==> LastIndexOf(s, c) >= from
  {
    NoneAfterLast(s, c);
    if LastIndexOf(s, c) < from { NotInSuffix(s, c, LastIndexOf(s, c) + 1, from); }
  }

  lemma NoneBehind(s: string, c: char, i: nat)
    requires i <= |s| && c !in s[i..]
    ensures forall k :: i <= k < |s| ==> s[k] != c
  {
    forall k | i <= k < |s| ensures s[k] != c { assert s[i..][k - i] == s[k]; }
  }

  lemma LastIndexIs(s: string, c: char, t: string)
    requires c !in t
    ensures LastIndexOf(s + [c] + t, c) == |s|
  {
    var head := s + [c];
    var whole := head + t;
    assert whole[..|head|] == head && whole[|head|..] == t;
    assert head[|s|] == c;
    NoneBehind(whole, c, |head|);
    LastIndexIsUnique(whole, c, |s|);
  }

  lemma IndexIs(s: string, c: char, t: string)
    requires c !in s
    ensures IndexOf(s + [c] + t, c) == |s|
  {
    var whole := s + [c] + t;
    assert whole[|s|] == c;
    forall k | 0 <= k < |s| ensures whole[k] != c { assert whole[k] == s[k]; }
  }

  // ----- Order -----

  /** Character by character, a proper prefix first. */
  predicate Less(a: string, b: string) {
    b != "" && (a == "" || a[0] < b[0] || (a[0] == b[0] && Less(a[1..], b[1..])))
  }

  lemma {:induction false} LessIsTotal(a: string, b: string)
    ensures a == b || Less(a, b) || Less(b, a)
  {
    if a != "" && b != "" && a[0] == b[0] {
      LessIsTotal(a[1..], b[1..]);
      assert a == [a[0]] + a[1..] && b == [b[0]] + b[1..];
    }
  }

  lemma {:induction false} LessIsTransitive(a: string, b: string, c: string)
    requires Less(a, b) && Less(b, c)
    ensures Less(a, c)
  {
    if a != "" && a[0] == b[0] == c[0] { LessIsTransitive(a[1..], b[1..], c[1..]); }
  }

  lemma {:induction false} LessIsStrict(a: string)
    ensures !Less(a, a)
  {
    if a == "" {
    } else {
      LessIsStrict(a[1..]);
    }
  }

  /** Texts that start with equally long parts are ordered by those, then by what follows. */
  lemma {:induction false} LessByParts(p: string, s: string, q: string, t: string)
    requires |p| == |q|
    ensures Less(p + s, q + t) <==> Less(p, q) || (p == q && Less(s, t))
    ensures p + s == q + t <==> p == q && s == t
  {
    if p == "" {
      assert p + s == s && q + t == t;
    } else {
      assert (p + s)[1..] == p[1..] + s && (q + t)[1..] == q[1..] + t;
      LessByParts(p[1..], s, q[1..], t);
      assert p == [p[0]] + p[1..] && q == [q[0]] + q[1..];
      assert p + s == [p[0]] + (p[1..] + s) && q + t == [q[0]] + (q[1..] + t);
    }
  }

}
