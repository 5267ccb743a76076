/**
  The two pieces of Go's standard library that the converter leans on for
  text: the ordering `sort.Strings` uses (byte-wise comparison of the UTF-8
  encoding, which orders strings exactly as comparing their code points
  does), and `strings.Split(s, ".")` followed by taking the last part.
 */
module Strings {

  /** Strict lexicographic order on strings, as Go's `<` on `string`. */
  predicate Less(a: string, b: string)
  {
    if a == [] then b != []
    else if b == [] then false
    else if a[0] != b[0] then a[0] < b[0]
    else Less(a[1..], b[1..])
  }

  /** Reflexive companion of Less: `a` does not come after `b`. */
  predicate LessEq(a: string, b: string)
  {
    !Less(b, a)
  }

  /** Lexicographic order stated without recursion: `a` is a proper prefix
      of `b`, or the two first differ at a position where `a` holds the
      smaller character. */
  predicate LexBefore(a: string, b: string)
  {
    || (|a| < |b| && a == b[..|a|])
    || (exists k :: 0 <= k < |a| && k < |b| && a[..k] == b[..k] && a[k] < b[k])
  }

  /** Less is exactly the lexicographic order on strings. */
  lemma LessIsLexicographic(a: string, b: string)
    ensures Less(a, b) <==> LexBefore(a, b)
  {
    if Less(a, b) {
      LessIsLexBefore(a, b);
    }
    if LexBefore(a, b) {
      LexBeforeIsLess(a, b);
    }
  }

  lemma {:induction false} LessIsLexBefore(a: string, b: string)
    requires Less(a, b)
    ensures LexBefore(a, b)
  {
    if a == [] {
      assert a == b[..0];
    } else if a[0] != b[0] {
      assert a[..0] == b[..0];
    } else {
      LessIsLexBefore(a[1..], b[1..]);
      if |a| - 1 < |b| - 1 && a[1..] == b[1..][..|a| - 1] {
        assert a == [a[0]] + a[1..];
        assert b[..|a|] == [b[0]] + b[1..][..|a| - 1];
      } else {
        var k :| 0 <= k < |a| - 1 && k < |b| - 1 && a[1..][..k] == b[1..][..k] && a[1..][k] < b[1..][k];
        assert a[..k + 1] == [a[0]] + a[1..][..k];
        assert b[..k + 1] == [b[0]] + b[1..][..k];
      }
    }
  }

  lemma {:induction false} LexBeforeIsLess(a: string, b: string)
    requires LexBefore(a, b)
    ensures Less(a, b)
  {
    if a != [] {
      assert b != [];
      if a[0] == b[0] {
        if |a| < |b| && a == b[..|a|] {
          assert a[1..] == b[1..][..|a| - 1];
        } else {
          var k :| 0 <= k < |a| && k < |b| && a[..k] == b[..k] && a[k] < b[k];
          assert k != 0;
          assert a[1..][..k - 1] == a[..k][1..];
          assert b[1..][..k - 1] == b[..k][1..];
        }
        LexBeforeIsLess(a[1..], b[1..]);
      } else {
        assert forall k :: 0 < k <= |a| && k <= |b| && a[..k] == b[..k] ==> a[0] == b[0];
      }
    }
  }

  lemma {:induction false} LessIrreflexive(a: string)
    ensures !Less(a, a)
  {
    if a != [] {
      LessIrreflexive(a[1..]);
    }
  }

  lemma {:induction false} LessTransitive(a: string, b: string, c: string)
    requires Less(a, b) && Less(b, c)
    ensures Less(a, c)
  {
    if a != [] && a[0] == b[0] && b[0] == c[0] {
      LessTransitive(a[1..], b[1..], c[1..]);
    }
  }

  /** Any two different strings are ordered one way or the other, so sorting
      by Less leaves no ties between distinct strings. */
  lemma {:induction false} LessTotal(a: string, b: string)
    requires a != b
    ensures Less(a, b) || Less(b, a)
  {
    if a != [] && b != [] && a[0] == b[0] {
      assert a == [a[0]] + a[1..] && b == [b[0]] + b[1..];
      LessTotal(a[1..], b[1..]);
    }
  }

  lemma LessAsymmetric(a: string, b: string)
    requires Less(a, b)
    ensures !Less(b, a)
  {
    if Less(b, a) {
      LessTransitive(a, b, a);
      LessIrreflexive(a);
    }
  }

  lemma LessEqTransitive(a: string, b: string, c: string)
    requires LessEq(a, b) && LessEq(b, c)
    ensures LessEq(a, c)
  {
    if Less(c, a) {
      if a == b {
      } else {
        LessTotal(a, b);
        LessTransitive(c, a, b);
      }
    }
  }

  /** The parts `strings.Split(s, ".")` returns: the maximal runs of non-dot
      characters, so that n dots give n + 1 parts (the empty string gives one
      empty part). */
  function Split(s: string): (parts: seq<string>)
    ensures |parts| >= 1
    ensures forall i :: 0 <= i < |parts| ==> '.' !in parts[i]
  {
    if s == [] then [""]
    else
      var rest := Split(s[1..]);
      if s[0] == '.' then [""] + rest
      else [[s[0]] + rest[0]] + rest[1..]
  }

  /** The inverse of Split: the parts put back together with a dot between
      each two of them. */
  function Join(parts: seq<string>): string
    requires |parts| >= 1
  {
    if |parts| == 1 then parts[0] else parts[0] + "." + Join(parts[1..])
  }

  lemma {:induction false} JoinSplit(s: string)
    ensures Join(Split(s)) == s
  {
    if s != [] {
      JoinSplit(s[1..]);
      var rest := Split(s[1..]);
      if s[0] != '.' {
        var parts := Split(s);
        assert parts[1..] == rest[1..];
        if |rest| == 1 {
          assert s == [s[0]] + s[1..];
        } else {
          assert s == [s[0]] + s[1..];
          assert s[1..] == rest[0] + "." + Join(rest[1..]);
        }
      } else {
        assert s == "." + s[1..];
      }
    }
  }

  lemma {:induction false} SplitJoin(parts: seq<string>)
    requires |parts| >= 1
    requires forall i :: 0 <= i < |parts| ==> '.' !in parts[i]
    ensures Split(Join(parts)) == parts
  {
    if |parts| == 1 {
      SplitDotFree(parts[0]);
    } else {
      SplitJoin(parts[1..]);
      SplitPrepend(parts[0], Join(parts[1..]));
      assert [parts[0]] + parts[1..] == parts;
    }
  }

  /** A string without a dot splits into itself. */
  lemma {:induction false} SplitDotFree(s: string)
    requires '.' !in s
    ensures Split(s) == [s]
  {
    if s != [] {
      assert '.' !in s[1..] by {
        forall i | 0 <= i < |s| - 1 ensures s[1..][i] != '.' {
          assert s[1..][i] == s[i + 1];
        }
      }
      SplitDotFree(s[1..]);
      assert s == [s[0]] + s[1..];
    }
  }

  /** Splitting `w + "." + rest` for a dot-free `w` yields `w` and then the
      parts of `rest`. */
  lemma {:induction false} SplitPrepend(w: string, rest: string)
    requires '.' !in w
    ensures Split(w + "." + rest) == [w] + Split(rest)
  {
    if w == [] {
      assert w + "." + rest == "." + rest;
      assert ("." + rest)[1..] == rest;
    } else {
      var s := w + "." + rest;
      assert s[1..] == w[1..] + "." + rest;
      assert '.' !in w[1..] by {
        forall i | 0 <= i < |w| - 1 ensures w[1..][i] != '.' {
          assert w[1..][i] == w[i + 1];
        }
      }
      SplitPrepend(w[1..], rest);
      assert s[0] == w[0];
      assert [w[0]] + w[1..] == w;
    }
  }

  /** Join with the last part split off. */
  lemma {:induction false} JoinLast(parts: seq<string>)
    requires |parts| >= 2
    ensures Join(parts) == Join(parts[..|parts| - 1]) + "." + parts[|parts| - 1]
  {
    if |parts| > 2 {
      JoinLast(parts[1..]);
      assert parts[1..][..|parts| - 2] == parts[..|parts| - 1][1..];
    }
  }

  /** The column label Go derives for a full key: the last part of
      `strings.Split(full, ".")`. */
  function ShortHeader(full: string): string
  {
    var parts := Split(full);
    parts[|parts| - 1]
  }

  /** The label is the text after the last dot of the key, or the whole key
      when it has no dot: a dot-free suffix that is either all of `full` or
      preceded by a dot. */
  lemma ShortHeaderIsLastSegment(full: string)
    ensures '.' !in ShortHeader(full)
    ensures |ShortHeader(full)| <= |full|
    ensures full[|full| - |ShortHeader(full)|..] == ShortHeader(full)
    ensures |ShortHeader(full)| == |full| || full[|full| - |ShortHeader(full)| - 1] == '.'
  {
    var parts := Split(full);
    var h := parts[|parts| - 1];
    JoinSplit(full);
    if |parts| >= 2 {
      JoinLast(parts);
      var head := Join(parts[..|parts| - 1]);
      assert full == head + "." + h;
      assert full[|full| - |h| - 1] == (head + "." + h)[|head|];
    }
  }

  /** The label of a dotted join of dot-free names is the last name, so
      full paths that end in the same field name share a label. */
  lemma ShortHeaderOfJoin(parts: seq<string>)
    requires |parts| >= 1
    requires forall i :: 0 <= i < |parts| ==> '.' !in parts[i]
    ensures ShortHeader(Join(parts)) == parts[|parts| - 1]
  {
    SplitJoin(parts);
    var split := Split(Join(parts));
    assert split == parts;
  }

  /** Joining dot-free names loses nothing: different name lists give
      different dotted strings. */
  lemma JoinInjective(p: seq<string>, q: seq<string>)
    requires |p| >= 1 && |q| >= 1
    requires forall i :: 0 <= i < |p| ==> '.' !in p[i]
    requires forall i :: 0 <= i < |q| ==> '.' !in q[i]
    requires Join(p) == Join(q)
    ensures p == q
  {
    SplitJoin(p);
    SplitJoin(q);
  }
}
