/**
 * The pieces of Java's String and int semantics the core relies on:
 * String.trim, String.contains, String.split with a one-character pattern,
 * 32-bit int wrap-around and String.hashCode.
 */
module JavaText {
  import opened Wrappers

  // ---------------------------------------------------------------------------
  // String.trim
  // ---------------------------------------------------------------------------

  /** String.trim treats every char at or below U+0020 as removable. */
  predicate IsTrimmable(c: char)
  {
    c <= ' '
  }

  /** Drops the leading run of trimmable chars. */
  function TrimStart(s: string): (r: string)
    ensures |r| <= |s| && r == s[|s| - |r|..]
    ensures r == [] || !IsTrimmable(r[0])
    ensures forall k :: 0 <= k < |s| - |r| ==> IsTrimmable(s[k])
  {
    if |s| > 0 && IsTrimmable(s[0]) then TrimStart(s[1..]) else s
  }

  /** Drops the trailing run of trimmable chars. */
  function TrimEnd(s: string): (r: string)
    ensures |r| <= |s| && r == s[..|r|]
    ensures r == [] || !IsTrimmable(r[|r| - 1])
    ensures forall k :: |r| <= k < |s| ==> IsTrimmable(s[k])
  {
    if |s| > 0 && IsTrimmable(s[|s| - 1]) then TrimEnd(s[..|s| - 1]) else s
  }

  /** s[i..j] is what is left of s once its leading and trailing trimmable runs are cut off. */
  ghost predicate IsTrimmedSlice(s: string, i: int, j: int)
  {
    && 0 <= i <= j <= |s|
    && (forall k :: 0 <= k < i ==> IsTrimmable(s[k]))
    && (forall k :: j <= k < |s| ==> IsTrimmable(s[k]))
    && (i < j ==> !IsTrimmable(s[i]) && !IsTrimmable(s[j - 1]))
  }

  /** r is the slice of s starting at i that has the trimmed shape. */
  ghost predicate TrimmedAt(s: string, r: string, i: int)
  {
    IsTrimmedSlice(s, i, i + |r|) && r == s[i..i + |r|]
  }

  /** String.trim. */
  function Trim(s: string): (r: string)
    ensures |r| <= |s|
    ensures r == [] || (!IsTrimmable(r[0]) && !IsTrimmable(r[|r| - 1]))
  {
    TrimEnd(TrimStart(s))
  }

  /** What Trim keeps is a slice of its input with only trimmable chars cut off either side. */
  lemma TrimShape(s: string)
    ensures exists i :: TrimmedAt(s, Trim(s), i)
  {
    var t := TrimStart(s);
    var r := TrimEnd(t);
    var i := |s| - |t|;
    assert Trim(s) == r;
    assert r == s[i..i + |r|] by {
      assert t == s[i..] && r == t[..|r|];
    }
    assert IsTrimmedSlice(s, i, i + |r|) by {
      TrimmedEnds(s, t, r);
    }
    assert TrimmedAt(s, r, i);
  }

  /** Cutting the leading run, then the trailing run, leaves a slice with the trimmed shape. */
  lemma TrimmedEnds(s: string, t: string, r: string)
    requires t == TrimStart(s) && r == TrimEnd(t)
    ensures IsTrimmedSlice(s, |s| - |t|, |s| - |t| + |r|)
  {
    var i := |s| - |t|;
    var j := i + |r|;
    forall k | j <= k < |s| ensures IsTrimmable(s[k]) {
      assert s[k] == t[k - i];
    }
    if i < j {
      assert s[i] == t[0] == r[0];
      assert s[j - 1] == t[|r| - 1] == r[|r| - 1];
    }
  }
  /** Any slice that has the trimmed shape is the result of Trim. */
  lemma TrimSlice(s: string, i: int, j: int)
    requires IsTrimmedSlice(s, i, j)
    ensures Trim(s) == s[i..j]
  {
    var t := TrimStart(s);
    var m := |s| - |t|;
    if i < j {
      // s[i] is the first char TrimStart may not drop, so TrimStart cut exactly i chars.
      assert !IsTrimmable(s[i]);
      assert m <= i;
      assert t[0] == s[m];
      assert m == i;
      var r := TrimEnd(t);
      var e := m + |r|;
      assert !IsTrimmable(t[j - 1 - m]);
      assert j <= e;
      assert r[|r| - 1] == s[e - 1];
      assert e == j;
    } else {
      assert forall k :: 0 <= k < |s| ==> IsTrimmable(s[k]);
      assert t == [];
    }
  }

  /** Trim is idempotent. */
  lemma TrimTrim(s: string)
    ensures Trim(Trim(s)) == Trim(s)
  {
    var r := Trim(s);
    TrimSlice(r, 0, |r|);
  }

  /**
   * Appending a space, a token and a space to an already trimmed text and
   * trimming again leaves the text, one space and the token.
   */
  lemma TrimPadded(a: string, w: string)
    requires Trim(a) == a
    requires forall k :: 0 <= k < |w| ==> !IsTrimmable(w[k])
    requires |w| > 0
    ensures Trim(a + " " + w + " ") == (if a == [] then w else a + " " + w)
  {
    var s := a + " " + w + " ";
    if a == [] {
      assert IsTrimmedSlice(s, 1, 1 + |w|);
      TrimSlice(s, 1, 1 + |w|);
      assert s[1..1 + |w|] == w;
    } else {
      assert a[0] == Trim(a)[0];
      assert IsTrimmedSlice(s, 0, |a| + 1 + |w|);
      TrimSlice(s, 0, |a| + 1 + |w|);
      assert s[0..|a| + 1 + |w|] == a + " " + w;
    }
  }

  /**
   * r is what StringUtils.trim makes of s: null from null, otherwise the
   * slice of s left once the trimmable characters at both ends are cut away.
   */
  ghost predicate TrimmedFrom(s: Option<string>, r: Option<string>)
  {
    && (r.None? <==> s.None?)
    && (r.Some? ==> exists i :: TrimmedAt(s.value, r.value, i))
  }

  /** Java's StringUtils.trim: null stays null, anything else is trimmed. */
  function TrimNullable(s: Option<string>): (r: Option<string>)
    ensures TrimmedFrom(s, r)
    ensures r.Some? ==> Trim(r.value) == r.value
    ensures r.Some? ==> r.value == [] || (!IsTrimmable(r.value[0]) && !IsTrimmable(r.value[|r.value| - 1]))
  {
    match s
    case None => None
    case Some(v) => TrimTrim(v); TrimShape(v); Some(Trim(v))
  }

  /** StringUtils.trimToNull(s) == null: null, or nothing but trimmable chars. */
  predicate IsBlank(s: Option<string>)
  {
    s.None? || Trim(s.value) == []
  }

  // ---------------------------------------------------------------------------
  // startsWith / endsWith / contains
  // ---------------------------------------------------------------------------

  predicate StartsWith(s: string, p: string)
  {
    |p| <= |s| && s[..|p|] == p
  }

  predicate EndsWith(s: string, p: string)
  {
    |p| <= |s| && s[|s| - |p|..] == p
  }

  /** n occurs in s starting at index i. */
  predicate OccursAt(s: string, n: string, i: int)
  {
    0 <= i <= |s| - |n| && s[i..i + |n|] == n
  }

  /** String.contains. */
  predicate Contains(s: string, n: string)
  {
    exists i | 0 <= i <= |s| - |n| :: OccursAt(s, n, i)
  }

  /** A needle longer than the text does not occur in it. */
  lemma NotContainsLonger(s: string, n: string)
    requires |n| > |s|
    ensures !Contains(s, n)
  {
  }

  /** A needle with a char the text lacks does not occur in it. */
  lemma NotContainsMissingChar(s: string, n: string, c: char)
    requires c in n && c !in s
    ensures !Contains(s, n)
  {
    var k :| 0 <= k < |n| && n[k] == c;
    forall i | 0 <= i <= |s| - |n|
      ensures !OccursAt(s, n, i)
    {
      assert s[i + k] != c;
    }
  }

  /**
   * When the first char of b does not occur in n, no occurrence of n can
   * straddle the seam of a + b.
   */
  lemma ContainsConcat(a: string, b: string, n: string)
    requires |n| > 0 && |b| > 0 && b[0] !in n
    ensures Contains(a + b, n) <==> Contains(a, n) || Contains(b, n)
  {
    var s := a + b;
    forall i | 0 <= i <= |s| - |n| && OccursAt(s, n, i)
      ensures Contains(a, n) || Contains(b, n)
    {
      if i + |n| <= |a| {
        assert s[i..i + |n|] == a[i..i + |n|];
        assert OccursAt(a, n, i);
      } else if |a| <= i {
        assert s[i..i + |n|] == b[i - |a|..i - |a| + |n|];
        assert OccursAt(b, n, i - |a|);
      } else {
        SeamChar(a, b, n, i);
        assert false;
      }
    }
    forall i | 0 <= i <= |a| - |n| && OccursAt(a, n, i)
      ensures Contains(s, n)
    {
      assert s[i..i + |n|] == a[i..i + |n|];
      assert OccursAt(s, n, i);
    }
    forall i | 0 <= i <= |b| - |n| && OccursAt(b, n, i)
      ensures Contains(s, n)
    {
      assert s[|a| + i..|a| + i + |n|] == b[i..i + |n|];
      assert OccursAt(s, n, |a| + i);
    }
  }

  /** An occurrence of n in a + b that covers the seam contains b[0]. */
  lemma SeamChar(a: string, b: string, n: string, i: int)
    requires |b| > 0 && OccursAt(a + b, n, i) && i < |a| < i + |n|
    ensures b[0] in n
  {
    assert n[|a| - i] == (a + b)[|a|];
  }

  /** An occurrence of a needle without trimmable chars lies inside the trimmed slice. */
  lemma OccurrenceInsideTrim(s: string, r: string, i: int, n: string, p: int)
    requires TrimmedAt(s, r, i) && OccursAt(s, n, p)
    requires |n| > 0 && forall k :: 0 <= k < |n| ==> !IsTrimmable(n[k])
    ensures i <= p && p + |n| <= i + |r|
  {
    assert s[p] == n[0];
    assert s[p + |n| - 1] == n[|n| - 1];
  }

  /** A needle without trimmable chars occurs in Trim(s) exactly when it occurs in s. */
  lemma ContainsTrim(s: string, n: string)
    requires |n| > 0 && forall k :: 0 <= k < |n| ==> !IsTrimmable(n[k])
    ensures Contains(Trim(s), n) <==> Contains(s, n)
  {
    var r := Trim(s);
    TrimShape(s);
    var i :| TrimmedAt(s, r, i);
    assert Contains(s, n) ==> Contains(r, n) by {
      if Contains(s, n) {
        var p :| OccursAt(s, n, p);
        OccurrenceInsideTrim(s, r, i, n, p);
        ShiftOccurrence(s, r, i, n, p);
      }
    }
    assert Contains(r, n) ==> Contains(s, n) by {
      if Contains(r, n) {
        var p :| OccursAt(r, n, p);
        WidenOccurrence(s, r, i, n, p);
      }
    }
  }

  /** A non-empty text without trimmable chars: one space-separated token. */
  predicate IsToken(n: string)
  {
    |n| > 0 && forall k :: 0 <= k < |n| ==> !IsTrimmable(n[k])
  }

  /** A token occurs in `w` exactly when it occurs in `" " + w`. */
  lemma ContainsAfterSpace(w: string, n: string)
    requires IsToken(n)
    ensures Contains(" " + w, n) <==> Contains(w, n)
  {
    var s := " " + w;
    assert w == s[1..1 + |w|];
    if Contains(s, n) {
      var p :| OccursAt(s, n, p);
      assert OccursAt(s, n, p);
      assert s[p..p + |n|][0] == s[p];
      assert p >= 1;
      ShiftOccurrence(s, w, 1, n, p);
    }
    if Contains(w, n) {
      var p :| OccursAt(w, n, p);
      WidenOccurrence(s, w, 1, n, p);
    }
  }

  /** A token occurs in `a + " " + w` exactly when it occurs in a or in w. */
  lemma ContainsSpaceJoined(a: string, w: string, n: string)
    requires IsToken(n)
    ensures Contains(a + " " + w, n) <==> Contains(a, n) || Contains(w, n)
  {
    assert a + " " + w == a + (" " + w);
    ContainsConcat(a, " " + w, n);
    ContainsAfterSpace(w, n);
  }

  /** A token occurs in `Trim(a) + " " + w + " "` exactly when it occurs in a or in w. */
  lemma ContainsPadded(a: string, w: string, n: string)
    requires IsToken(n)
    ensures Contains(Trim(a) + " " + w + " ", n) <==> Contains(a, n) || Contains(w, n)
  {
    var x := Trim(a) + " " + w;
    ContainsConcat(x, " ", n);
    NotContainsMissingChar(" ", n, n[0]);
    ContainsSpaceJoined(Trim(a), w, n);
    ContainsTrim(a, n);
  }

  lemma ContainsSelf(n: string)
    ensures Contains(n, n)
  {
    assert OccursAt(n, n, 0);
  }

  /** An occurrence in s inside the slice r == s[i..] is an occurrence in r. */
  lemma ShiftOccurrence(s: string, r: string, i: int, n: string, p: int)
    requires 0 <= i && i + |r| <= |s| && r == s[i..i + |r|]
    requires OccursAt(s, n, p) && i <= p && p + |n| <= i + |r|
    ensures OccursAt(r, n, p - i)
  {
    var q := p - i;
    forall k | 0 <= k < |n|
      ensures r[q..q + |n|][k] == n[k]
    {
      assert r[q..q + |n|][k] == r[q + k] == s[p + k];
      assert n[k] == s[p..p + |n|][k];
    }
    assert r[q..q + |n|] == n;
  }

  /** An occurrence in the slice r == s[i..] is an occurrence in s. */
  lemma WidenOccurrence(s: string, r: string, i: int, n: string, p: int)
    requires 0 <= i && i + |r| <= |s| && r == s[i..i + |r|]
    requires OccursAt(r, n, p)
    ensures OccursAt(s, n, i + p)
  {
    forall k | 0 <= k < |n|
      ensures s[i + p..i + p + |n|][k] == n[k]
    {
      assert s[i + p..i + p + |n|][k] == s[i + p + k] == r[p + k];
      assert n[k] == r[p..p + |n|][k];
    }
    assert s[i + p..i + p + |n|] == n;
  }

  // ---------------------------------------------------------------------------
  // String.split with a one-character pattern
  // ---------------------------------------------------------------------------

  /** Glues parts back together with sep between consecutive parts. */
  function Join(parts: seq<string>, sep: char): string
    requires |parts| >= 1
  {
    if |parts| == 1 then parts[0] else parts[0] + [sep] + Join(parts[1..], sep)
  }

  /** Every piece between separators, empty pieces included. */
  function SplitAll(s: string, sep: char): (parts: seq<string>)
    ensures |parts| >= 1
    ensures forall p :: p in parts ==> sep !in p
    ensures Join(parts, sep) == s
    ensures sep !in s <==> parts == [s]
  {
    if |s| == 0 then [""]
    else
      var rest := SplitAll(s[1..], sep);
      if s[0] == sep then
        SeparatorFirst(s, rest, sep);
        [""] + rest
      else
        PrependToFirst(s, rest, sep);
        [[s[0]] + rest[0]] + rest[1..]
  }

  /** A text opening with the separator splits into an empty piece followed by the pieces of the rest. */
  lemma SeparatorFirst(s: string, rest: seq<string>, sep: char)
    requires |s| > 0 && s[0] == sep
    requires |rest| >= 1 && Join(rest, sep) == s[1..]
    requires forall p :: p in rest ==> sep !in p
    ensures var parts := [""] + rest;
      && (forall p :: p in parts ==> sep !in p)
      && Join(parts, sep) == s
      && sep in s && parts != [s]
  {
    var parts := [""] + rest;
    assert parts[1..] == rest;
    assert s == [s[0]] + s[1..];
    assert s[0] in s;
  }

  /** A text opening with another char gets that char in front of the first piece of the rest. */
  lemma PrependToFirst(s: string, rest: seq<string>, sep: char)
    requires |s| > 0 && s[0] != sep
    requires |rest| >= 1 && Join(rest, sep) == s[1..]
    requires forall p :: p in rest ==> sep !in p
    requires sep !in s[1..] <==> rest == [s[1..]]
    ensures var parts := [[s[0]] + rest[0]] + rest[1..];
      && (forall p :: p in parts ==> sep !in p)
      && Join(parts, sep) == s
      && (sep !in s <==> parts == [s])
  {
    PrependedPieces(s[0], rest, sep);
    PrependedJoin(s, rest, sep);
    PrependedSingle(s, rest, sep);
  }

  lemma PrependedPieces(c: char, rest: seq<string>, sep: char)
    requires c != sep && |rest| >= 1
    requires forall p :: p in rest ==> sep !in p
    ensures forall p :: p in [[c] + rest[0]] + rest[1..] ==> sep !in p
  {
    var parts := [[c] + rest[0]] + rest[1..];
    assert rest[0] in rest;
    forall p | p in parts ensures sep !in p {
      if p != parts[0] {
        assert p in rest[1..];
      }
    }
  }

  lemma PrependedJoin(s: string, rest: seq<string>, sep: char)
    requires |s| > 0 && |rest| >= 1 && Join(rest, sep) == s[1..]
    ensures Join([[s[0]] + rest[0]] + rest[1..], sep) == s
  {
    var parts := [[s[0]] + rest[0]] + rest[1..];
    assert s == [s[0]] + s[1..];
    if |rest| > 1 {
      assert parts[1..] == rest[1..];
      assert Join(rest, sep) == rest[0] + [sep] + Join(rest[1..], sep);
      assert Join(parts, sep) == parts[0] + [sep] + Join(rest[1..], sep);
    }
  }

  lemma PrependedSingle(s: string, rest: seq<string>, sep: char)
    requires |s| > 0 && s[0] != sep && |rest| >= 1
    requires sep !in s[1..] <==> rest == [s[1..]]
    ensures sep !in s <==> [[s[0]] + rest[0]] + rest[1..] == [s]
  {
    var parts := [[s[0]] + rest[0]] + rest[1..];
    assert s == [s[0]] + s[1..];
    assert sep !in s <==> sep !in s[1..];
    if parts == [s] {
      assert |parts| == |rest| == 1;
      assert parts[0] == s;
      assert rest[0] == s[1..] by {
        assert ([s[0]] + rest[0])[1..] == rest[0];
      }
      assert rest == [rest[0]];
    }
  }

  /** The first piece ends at the first separator; the rest is split on its own. */
  lemma {:induction false} SplitAllAfter(a: string, sep: char, b: string)
    requires sep !in a
    ensures SplitAll(a + [sep] + b, sep) == [a] + SplitAll(b, sep)
  {
    var s := a + [sep] + b;
    if |a| == 0 {
      assert s == [sep] + b;
      assert s[1..] == b;
    } else {
      assert s[1..] == a[1..] + [sep] + b;
      SplitAllAfter(a[1..], sep, b);
      assert [a[0]] + a[1..] == a;
    }
  }

  /** Removes the trailing empty strings of a list. */
  function DropTrailingEmpty(parts: seq<string>): (r: seq<string>)
    ensures |r| <= |parts| && r == parts[..|r|]
    ensures r == [] || r[|r| - 1] != ""
    ensures forall k :: |r| <= k < |parts| ==> parts[k] == ""
  {
    if |parts| > 0 && parts[|parts| - 1] == "" then DropTrailingEmpty(parts[..|parts| - 1]) else parts
  }

  /**
   * String.split(regex) for a regex that is one literal char: the input
   * itself when the char does not occur, otherwise the pieces between
   * occurrences with the trailing empty pieces removed.
   */
  function Split(s: string, sep: char): (r: seq<string>)
    ensures sep !in s ==> r == [s]
    ensures sep in s ==> r == DropTrailingEmpty(SplitAll(s, sep))
    ensures forall p :: p in r ==> sep !in p
  {
    if sep !in s then [s] else DropTrailingEmpty(SplitAll(s, sep))
  }

  /** The prefix of s before the first sep (all of s when there is none). */
  function TakeUntil(s: string, sep: char): (r: string)
    ensures |r| <= |s| && r == s[..|r|]
    ensures sep !in r
    ensures |r| < |s| ==> s[|r|] == sep
  {
    if |s| == 0 || s[0] == sep then "" else [s[0]] + TakeUntil(s[1..], sep)
  }

  /** The first piece between separators is the prefix before the first separator. */
  lemma {:induction false} SplitAllFirst(s: string, sep: char)
    ensures SplitAll(s, sep)[0] == TakeUntil(s, sep)
  {
    if |s| > 0 && s[0] != sep {
      SplitAllFirst(s[1..], sep);
    }
  }

  /**
   * For a trimmed, non-empty text, `t.split(" ")[0]` exists and is the text
   * up to its first space.
   */
  lemma FirstToken(t: string)
    requires Trim(t) == t
    ensures |Split(t, ' ')| >= 1
    ensures Split(t, ' ')[0] == TakeUntil(t, ' ')
  {
    if ' ' in t {
      var all := SplitAll(t, ' ');
      SplitAllFirst(t, ' ');
      assert t[0] == Trim(t)[0];
      assert all[0] != "";
      var r := DropTrailingEmpty(all);
      assert |r| > 0;
      assert r[0] == all[0];
    }
  }

  // ---------------------------------------------------------------------------
  // Java int
  // ---------------------------------------------------------------------------

  const Int32Min: int := -0x8000_0000
  const Int32Max: int := 0x7fff_ffff
  const TwoTo32: int := 0x1_0000_0000

  predicate IsInt32(x: int)
  {
    Int32Min <= x <= Int32Max
  }

  /** The values of a Java int. */
  type Int32 = x: int | IsInt32(x)

  /** Narrows an exact integer to a Java int the way int arithmetic wraps (two's complement). */
  function ToInt32(x: int): (r: int)
    ensures IsInt32(r)
    ensures (x - r) % TwoTo32 == 0
    ensures IsInt32(x) ==> r == x
  {
    (x - Int32Min) % TwoTo32 + Int32Min
  }

  /** Two integers congruent modulo 2^32 narrow to the same int. */
  lemma ToInt32Congruent(x: int, y: int)
    requires (x - y) % TwoTo32 == 0
    ensures ToInt32(x) == ToInt32(y)
  {
    var d := (x - y) / TwoTo32;
    assert x - Int32Min == (y - Int32Min) + d * TwoTo32;
    ModShift(y - Int32Min, d);
  }

  lemma ModShift(a: int, d: int)
    ensures (a + d * TwoTo32) % TwoTo32 == a % TwoTo32
  {
    var q := a / TwoTo32;
    var m := a % TwoTo32;
    assert a + d * TwoTo32 == (q + d) * TwoTo32 + m;
  }

  // ---------------------------------------------------------------------------
  // String.hashCode
  // ---------------------------------------------------------------------------

  /** The UTF-16 code units of one char, the units Java strings are made of. */
  function Utf16(c: char): (us: seq<int>)
    ensures |us| == (if c as int < 0x1_0000 then 1 else 2)
    ensures forall u :: u in us ==> 0 <= u < 0x1_0000
    ensures |us| == 1 ==> us[0] == c as int
    ensures |us| == 2 ==>
      && 0xD800 <= us[0] < 0xDC00 <= us[1] < 0xE000
      && 0x1_0000 + (us[0] - 0xD800) * 0x400 + (us[1] - 0xDC00) == c as int
  {
    var cp := c as int;
    if cp < 0x1_0000 then [cp]
    else [0xD800 + (cp - 0x1_0000) / 0x400, 0xDC00 + (cp - 0x1_0000) % 0x400]
  }

  function Utf16Units(s: string): seq<int>
  {
    if |s| == 0 then [] else Utf16(s[0]) + Utf16Units(s[1..])
  }

  /** The exact value of the fold `h = b * h + x` over xs, starting from 0. */
  function Horner(xs: seq<int>, b: int): int
  {
    if |xs| == 0 then 0 else b * Horner(xs[..|xs| - 1], b) + xs[|xs| - 1]
  }

  /**
   * The same fold in Java int arithmetic, wrapping after every step. It agrees
   * with wrapping the exact polynomial once at the end.
   */
  function HornerInt32(xs: seq<int>, b: int): (h: int)
    ensures IsInt32(h)
    ensures h == ToInt32(Horner(xs, b))
  {
    if |xs| == 0 then 0
    else
      var prev := HornerInt32(xs[..|xs| - 1], b);
      var exact := Horner(xs[..|xs| - 1], b);
      MulCongruent(exact, prev, b, xs[|xs| - 1]);
      ToInt32Congruent(b * exact + xs[|xs| - 1], b * prev + xs[|xs| - 1]);
      ToInt32(b * prev + xs[|xs| - 1])
  }

  /** Scaling and shifting keeps two congruent integers congruent. */
  lemma MulCongruent(a: int, r: int, b: int, x: int)
    requires (a - r) % TwoTo32 == 0
    ensures ((b * a + x) - (b * r + x)) % TwoTo32 == 0
  {
    var d := (a - r) / TwoTo32;
    assert a - r == d * TwoTo32;
    assert (b * a + x) - (b * r + x) == b * (a - r);
    assert b * (a - r) == (b * d) * TwoTo32;
    ModShift(0, b * d);
  }

  /** String.hashCode: `h = 31 * h + u` over the UTF-16 units, in int arithmetic. */
  function StringHashCode(s: string): (h: int)
    ensures IsInt32(h)
    ensures h == ToInt32(Horner(Utf16Units(s), 31))
  {
    HornerInt32(Utf16Units(s), 31)
  }
}
