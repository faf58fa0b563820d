/**
 * The JavaScript string primitives the ingestion code leans on:
 * `String.prototype.split` with a one-character separator, `trim`,
 * `toLowerCase` (ASCII letters only), `includes`, and the decimal
 * rendering of a number inside a template literal.
 */
module Strings {

  /** White space and line terminators as ECMAScript's `trim` and `Number` strip them. */
  predicate IsWs(ch: char)
  {
    || ch == ' '
    || ('\t' <= ch <= '\r')
    || ch == '\U{00A0}' || ch == '\U{1680}'
    || ('\U{2000}' <= ch <= '\U{200A}')
    || ch == '\U{2028}' || ch == '\U{2029}' || ch == '\U{202F}'
    || ch == '\U{205F}' || ch == '\U{3000}' || ch == '\U{FEFF}'
  }

  // ---------------------------------------------------------------------------
  // split / join

  /** The pieces glued back together with the separator between them. */
  function Join(pieces: seq<string>, sep: char): string
    requires |pieces| >= 1
    decreases |pieces|
  {
    if |pieces| == 1 then pieces[0] else pieces[0] + [sep] + Join(pieces[1..], sep)
  }

  /**
   * Splitting at a one-character separator: separator-free pieces, in
   * order; there is always at least one piece, the empty text giving one
   * empty piece.
   */
  function Split(s: string, sep: char): (pieces: seq<string>)
    ensures |pieces| >= 1
    ensures forall i :: 0 <= i < |pieces| ==> sep !in pieces[i]
    decreases |s|
  {
    if s == [] then [""]
    else
      var rest := Split(s[1..], sep);
      if s[0] == sep then
        assert ([""] + rest)[1..] == rest;
        [""] + rest
      else
        var first := [s[0]] + rest[0];
        assert ([first] + rest[1..])[1..] == rest[1..];
        assert sep !in first;
        [first] + rest[1..]
  }

  /** Joining undoes splitting: no character is lost or added. */
  lemma {:induction false} JoinSplit(s: string, sep: char)
    ensures Join(Split(s, sep), sep) == s
    decreases |s|
  {
    if s != [] {
      var rest := Split(s[1..], sep);
      JoinSplit(s[1..], sep);
      if s[0] == sep {
        assert ([""] + rest)[1..] == rest;
      } else {
        var first := [s[0]] + rest[0];
        assert ([first] + rest[1..])[1..] == rest[1..];
        if |rest| > 1 {
          assert Join(rest, sep) == rest[0] + [sep] + Join(rest[1..], sep);
        }
        assert [s[0]] + s[1..] == s;
      }
    }
  }

  lemma {:induction false} SplitNoSeparator(a: string, sep: char)
    requires sep !in a
    ensures Split(a, sep) == [a]
    decreases |a|
  {
    if a != [] {
      SplitNoSeparator(a[1..], sep);
      assert [a[0]] + a[1..] == a;
    }
  }

  lemma {:induction false} SplitCons(a: string, sep: char, t: string)
    requires sep !in a
    ensures Split(a + [sep] + t, sep) == [a] + Split(t, sep)
    decreases |a|
  {
    var s := a + [sep] + t;
    if a == [] {
      assert s[1..] == t;
    } else {
      assert s[1..] == a[1..] + [sep] + t;
      SplitCons(a[1..], sep, t);
      assert [a[0]] + a[1..] == a;
    }
  }

  /** Splitting undoes joining: the split of a string is its only separator-free decomposition. */
  lemma {:induction false} SplitJoin(pieces: seq<string>, sep: char)
    requires |pieces| >= 1
    requires forall i :: 0 <= i < |pieces| ==> sep !in pieces[i]
    ensures Split(Join(pieces, sep), sep) == pieces
    decreases |pieces|
  {
    if |pieces| == 1 {
      SplitNoSeparator(pieces[0], sep);
    } else {
      SplitJoin(pieces[1..], sep);
      SplitCons(pieces[0], sep, Join(pieces[1..], sep));
      assert [pieces[0]] + pieces[1..] == pieces;
    }
  }

  // ---------------------------------------------------------------------------
  // trim

  /** The white space at the start of `s` removed. */
  function TrimLeft(s: string): string
    decreases |s|
  {
    if s != [] && IsWs(s[0]) then TrimLeft(s[1..]) else s
  }

  /** `TrimLeft` keeps a suffix, which starts with something other than white space, and drops only white space. */
  lemma {:induction false} TrimLeftFacts(s: string)
    ensures var r := TrimLeft(s);
      && |r| <= |s|
      && (forall i :: 0 <= i < |r| ==> r[i] == s[|s| - |r| + i])
      && (r == [] || !IsWs(r[0]))
      && (forall i :: 0 <= i < |s| - |r| ==> IsWs(s[i]))
    decreases |s|
  {
    if s != [] && IsWs(s[0]) {
      var t := s[1..];
      TrimLeftFacts(t);
      var r := TrimLeft(t);
      forall i | 0 <= i < |r| ensures r[i] == s[|s| - |r| + i] {
        assert t[|t| - |r| + i] == s[|s| - |r| + i];
      }
      forall i | 0 <= i < |s| - |r| ensures IsWs(s[i]) {
        if i > 0 {
          assert s[i] == t[i - 1];
        }
      }
    }
  }

  /** The white space at the end of `s` removed. */
  function TrimRight(s: string): string
    decreases |s|
  {
    if s != [] && IsWs(s[|s| - 1]) then TrimRight(s[..|s| - 1]) else s
  }

  /** `TrimRight` keeps a prefix, which ends with something other than white space, and drops only white space. */
  lemma {:induction false} TrimRightFacts(s: string)
    ensures var r := TrimRight(s);
      && |r| <= |s|
      && (forall i :: 0 <= i < |r| ==> r[i] == s[i])
      && (r == [] || !IsWs(r[|r| - 1]))
      && (forall i :: |r| <= i < |s| ==> IsWs(s[i]))
    decreases |s|
  {
    if s != [] && IsWs(s[|s| - 1]) {
      TrimRightFacts(s[..|s| - 1]);
    }
  }

  predicate AllWs(s: string)
  {
    forall i :: 0 <= i < |s| ==> IsWs(s[i])
  }

  /** Trimming: the result neither starts nor ends with white space. */
  function Trim(s: string): (r: string)
    ensures r == [] || (!IsWs(r[0]) && !IsWs(r[|r| - 1]))
  {
    var left := TrimLeft(s);
    TrimLeftFacts(s);
    TrimRightFacts(left);
    TrimRight(left)
  }

  /** Every character of the trimmed string comes from `s`. */
  lemma TrimChars(s: string)
    ensures forall ch :: ch in Trim(s) ==> ch in s
  {
    var left := TrimLeft(s);
    TrimLeftFacts(s);
    TrimRightFacts(left);
    var r := Trim(s);
    forall ch | ch in r ensures ch in s {
      var i :| 0 <= i < |r| && r[i] == ch;
      assert left[i] == ch;
      assert s[|s| - |left| + i] == ch;
    }
  }

  /** Trimming leaves nothing exactly when there is nothing but white space. */
  lemma TrimEmpty(s: string)
    ensures Trim(s) == [] <==> AllWs(s)
  {
    var left := TrimLeft(s);
    TrimLeftFacts(s);
    TrimRightFacts(left);
  }

  predicate TrimmedEnds(t: string)
  {
    t == [] || (!IsWs(t[0]) && !IsWs(t[|t| - 1]))
  }

  lemma {:induction false} TrimLeftPadded(pre: string, rest: string)
    requires AllWs(pre)
    requires rest == [] || !IsWs(rest[0])
    ensures TrimLeft(pre + rest) == rest
    decreases |pre|
  {
    if pre != [] {
      assert (pre + rest)[1..] == pre[1..] + rest;
      TrimLeftPadded(pre[1..], rest);
    } else {
      assert pre + rest == rest;
    }
  }

  lemma {:induction false} TrimRightPadded(rest: string, post: string)
    requires AllWs(post)
    requires rest == [] || !IsWs(rest[|rest| - 1])
    ensures TrimRight(rest + post) == rest
    decreases |post|
  {
    if post != [] {
      var s := rest + post;
      assert s[..|s| - 1] == rest + post[..|post| - 1];
      TrimRightPadded(rest, post[..|post| - 1]);
    } else {
      assert rest + post == rest;
    }
  }

  /** Trimming strips exactly the white space around a core with non-blank ends. */
  lemma TrimPadded(pre: string, t: string, post: string)
    requires AllWs(pre) && AllWs(post) && TrimmedEnds(t)
    ensures Trim(pre + t + post) == t
  {
    if t == [] {
      assert pre + t + post == pre + post;
      assert AllWs(pre + post);
      TrimEmpty(pre + post);
    } else {
      assert pre + t + post == pre + (t + post);
      TrimLeftPadded(pre, t + post);
      TrimRightPadded(t, post);
    }
  }

  /** A string without white space at either end is its own trim. */
  lemma TrimmedSelf(t: string)
    requires TrimmedEnds(t)
    ensures Trim(t) == t
  {
    TrimPadded([], t, []);
    assert [] + t + [] == t;
  }

  /** `trim` is idempotent. */
  lemma TrimIdempotent(s: string)
    ensures Trim(Trim(s)) == Trim(s)
  {
    TrimmedSelf(Trim(s));
  }

  // ---------------------------------------------------------------------------
  // lower case, substring search

  function LowerChar(ch: char): char
  {
    if 'A' <= ch <= 'Z' then (ch as int + 32) as char else ch
  }

  /** Lower-casing, restricted to the ASCII letters. */
  function Lower(s: string): string
  {
    seq(|s|, i requires 0 <= i < |s| => LowerChar(s[i]))
  }

  /** Lowering commutes with slicing. */
  lemma LowerSlice(s: string, i: nat, j: nat)
    requires i <= j <= |s|
    ensures Lower(s)[i..j] == Lower(s[i..j])
  {
  }

  /** Lowering twice is lowering once. */
  lemma LowerIdempotent(s: string)
    ensures Lower(Lower(s)) == Lower(s)
  {
  }

  /** `t` occurs in `s` starting at index `i`. */
  predicate OccursAt(s: string, t: string, i: int)
  {
    0 <= i <= |s| - |t| && s[i..i + |t|] == t
  }

  /** Substring test: `t` occurs somewhere in `s`. */
  predicate Contains(s: string, t: string)
  {
    exists i | 0 <= i <= |s| - |t| :: OccursAt(s, t, i)
  }

  // ---------------------------------------------------------------------------
  // numbers in text

  predicate IsDigit(ch: char)
  {
    '0' <= ch <= '9'
  }

  function DigitChar(d: nat): char
    requires d < 10
  {
    ('0' as int + d) as char
  }

  /** The decimal text of a natural number, as a template literal renders it. */
  function DecimalString(n: nat): (s: string)
    ensures |s| >= 1 && forall i :: 0 <= i < |s| ==> IsDigit(s[i])
    decreases n
  {
    if n < 10 then [DigitChar(n)] else DecimalString(n / 10) + [DigitChar(n % 10)]
  }
}
