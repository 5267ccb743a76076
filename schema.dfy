/**
  The schema unifier of `main`: the union of the keys of all flat records
  (`fieldSet`), copied into a slice and sorted (`fullKeys`), and the short
  column labels derived from it (`shortHeaders`).
 */
module Schema {
  import opened Strings

  /** The keys `fieldSet` holds once every record has been added. */
  function Universe(records: seq<map<string, string>>): set<string>
  {
    if records == [] then {}
    else Universe(records[..|records| - 1]) + records[|records| - 1].Keys
  }

  /** The field set is exactly the union of the records' keys: a key is in
      it if and only if some record has it. */
  lemma {:induction false} UniverseIsUnion(records: seq<map<string, string>>, k: string)
    ensures k in Universe(records) <==> exists i :: 0 <= i < |records| && k in records[i]
  {
    if records != [] {
      var init := records[..|records| - 1];
      UniverseIsUnion(init, k);
      if exists i :: 0 <= i < |init| && k in init[i] {
        var i :| 0 <= i < |init| && k in init[i];
        assert records[i] == init[i];
      }
      if exists i :: 0 <= i < |records| && k in records[i] {
        var i :| 0 <= i < |records| && k in records[i];
        if i < |init| {
          assert init[i] == records[i];
        }
      }
    }
  }

  /** Strictly ascending: sorted, and no key twice. */
  predicate Sorted(s: seq<string>)
  {
    forall i, j :: 0 <= i < j < |s| ==> Less(s[i], s[j])
  }

  /** Ascending, ties allowed: what `sort.Strings` promises. */
  predicate Ordered(s: seq<string>)
  {
    forall i, j :: 0 <= i < j < |s| ==> LessEq(s[i], s[j])
  }

  lemma {:induction false} LeastExists(s: set<string>)
    requires s != {}
    ensures exists m :: m in s && forall x :: x in s ==> LessEq(m, x)
    decreases s
  {
    var y :| y in s;
    if s == {y} {
      LessIrreflexive(y);
      assert forall x :: x in s ==> LessEq(y, x);
    } else {
      var rest := s - {y};
      LeastExists(rest);
      var m :| m in rest && forall x :: x in rest ==> LessEq(m, x);
      var least := if Less(y, m) then y else m;
      forall x | x in s ensures LessEq(least, x) {
        if x == y {
          LessIrreflexive(y);
        } else if least == y {
          LessAsymmetric(y, m);
          LessEqTransitive(y, m, x);
        }
      }
      assert least in s;
    }
  }

  /** The first key of `s` in sorted order. */
  ghost function Least(s: set<string>): (m: string)
    requires s != {}
    ensures m in s && forall x :: x in s ==> LessEq(m, x)
  {
    LeastExists(s);
    var m :| m in s && forall x :: x in s ==> LessEq(m, x);
    m
  }

  /** The column order: the keys of `s`, least first. */
  ghost function Columns(s: set<string>): seq<string>
    decreases s
  {
    if s == {} then []
    else
      var m := Least(s);
      [m] + Columns(s - {m})
  }

  /** The columns are the keys of the field set, each exactly once (no
      more columns than keys), in strictly ascending byte-wise order. */
  lemma {:induction false} ColumnsSpec(s: set<string>)
    ensures Sorted(Columns(s))
    ensures forall k :: k in Columns(s) <==> k in s
    ensures |Columns(s)| == |s|
    decreases s
  {
    if s != {} {
      var m := Least(s);
      var rest := s - {m};
      ColumnsSpec(rest);
      var c := Columns(s);
      assert c == [m] + Columns(rest);
      forall j | 0 < j < |c| ensures Less(m, c[j]) {
        assert c[j] == Columns(rest)[j - 1];
        assert c[j] in rest;
        LessTotal(m, c[j]);
      }
    }
  }

  /** A strictly ascending sequence is fixed by its elements. */
  lemma {:induction false} SortedUnique(a: seq<string>, b: seq<string>)
    requires Sorted(a) && Sorted(b)
    requires forall k :: k in a <==> k in b
    ensures a == b
  {
    assert b != [] ==> b[0] in b;
    if a != [] {
      assert a[0] in a && b != [] && b[0] in b;
      if a[0] != b[0] {
        var i :| 0 < i < |a| && a[i] == b[0];
        var j :| 0 < j < |b| && b[j] == a[0];
        LessAsymmetric(a[0], a[i]);
      }
      SortedTail(a);
      SortedTail(b);
      SortedUnique(a[1..], b[1..]);
    }
  }

  /** Dropping the first key of a strictly ascending sequence drops exactly
      that key. */
  lemma SortedTail(s: seq<string>)
    requires Sorted(s) && s != []
    ensures forall k :: k in s[1..] <==> k in s && k != s[0]
  {
    LessIrreflexive(s[0]);
    forall k ensures k in s[1..] <==> k in s && k != s[0] {
      if k in s[1..] {
        var i :| 0 <= i < |s| - 1 && s[1..][i] == k;
        assert s[i + 1] == k;
      }
      if k in s && k != s[0] {
        var i :| 0 <= i < |s| && s[i] == k;
        assert s[1..][i - 1] == k;
      }
    }
  }

  /** Column order does not depend on the order in which the keys were
      collected: any strictly ascending listing of the field set is Columns. */
  lemma ColumnsUnique(s: set<string>, keys: seq<string>)
    requires Sorted(keys)
    requires forall k :: k in keys <==> k in s
    ensures keys == Columns(s)
  {
    ColumnsSpec(s);
    SortedUnique(keys, Columns(s));
  }

  /** `sort.Strings(a)`, as an insertion sort in place. */
  method SortStrings(a: array<string>)
    modifies a
    ensures Ordered(a[..])
    ensures multiset(a[..]) == multiset(old(a[..]))
  {
    var i := 0;
    while i < a.Length
      invariant 0 <= i <= a.Length
      invariant forall x, y :: 0 <= x < y < i ==> LessEq(a[x], a[y])
      invariant multiset(a[..]) == multiset(old(a[..]))
    {
      Insert(a, i);
      i := i + 1;
    }
  }

  /** One insertion step: moves `a[i]` left past every larger key, so that
      the ascending prefix `a[..i]` grows to `a[..i + 1]`. */
  method Insert(a: array<string>, i: nat)
    requires i < a.Length
    requires forall x, y :: 0 <= x < y < i ==> LessEq(a[x], a[y])
    modifies a
    ensures forall x, y :: 0 <= x < y <= i ==> LessEq(a[x], a[y])
    ensures multiset(a[..i + 1]) == multiset(old(a[..i + 1]))
    ensures a[i + 1..] == old(a[i + 1..])
    ensures multiset(a[..]) == multiset(old(a[..]))
  {
    var j := i;
    while j > 0 && Less(a[j], a[j - 1])
      invariant 0 <= j <= i
      invariant forall x, y :: 0 <= x < y <= i && x != j && y != j ==> LessEq(a[x], a[y])
      invariant forall y :: j < y <= i ==> LessEq(a[j], a[y])
      invariant multiset(a[..i + 1]) == multiset(old(a[..i + 1]))
      invariant a[i + 1..] == old(a[i + 1..])
    {
      LessAsymmetric(a[j], a[j - 1]);
      SwapKeepsMultiset(a[..i + 1], j);
      a[j - 1], a[j] := a[j], a[j - 1];
      j := j - 1;
    }
    assert a[..] == a[..i + 1] + a[i + 1..];
    assert old(a[..]) == old(a[..i + 1]) + old(a[i + 1..]);
    forall x | 0 <= x < j ensures LessEq(a[x], a[j]) {
      if x < j - 1 {
        LessEqTransitive(a[x], a[j - 1], a[j]);
      }
    }
  }

  /** Exchanging two neighbours keeps a sequence's keys. */
  lemma SwapKeepsMultiset(s: seq<string>, j: nat)
    requires 0 < j < |s|
    ensures multiset(s[j - 1 := s[j]][j := s[j - 1]]) == multiset(s)
  {
    var t := s[j - 1 := s[j]][j := s[j - 1]];
    assert s == s[..j - 1] + [s[j - 1], s[j]] + s[j + 1..];
    assert t == s[..j - 1] + [s[j], s[j - 1]] + s[j + 1..];
  }

  /** A key at two positions occurs at least twice. */
  lemma RepeatCounts(s: seq<string>, i: nat, j: nat)
    requires i < j < |s|
    ensures s[i] == s[j] ==> multiset(s)[s[i]] >= 2
  {
    if s[i] == s[j] {
      assert s == s[..j] + s[j..];
      assert s[i] in s[..j] && s[j] in s[j..];
    }
  }

  /** A sequence in which no key occurs twice and that is ordered is
      strictly ascending. */
  lemma OrderedDistinctIsSorted(s: seq<string>)
    requires Ordered(s)
    requires forall k :: multiset(s)[k] <= 1
    ensures Sorted(s)
  {
    forall i, j | 0 <= i < j < |s| ensures Less(s[i], s[j]) {
      RepeatCounts(s, i, j);
      if s[i] != s[j] {
        LessTotal(s[i], s[j]);
      }
    }
  }

  /** `fullKeys`: the keys of the field set appended in whatever order the
      map yields them, then sorted. */
  method FullKeys(fieldSet: set<string>) returns (fullKeys: seq<string>)
    ensures fullKeys == Columns(fieldSet)
  {
    fullKeys := [];
    var rest := fieldSet;
    while rest != {}
      invariant rest <= fieldSet
      invariant multiset(fullKeys) + multiset(rest) == multiset(fieldSet)
      decreases rest
    {
      var k :| k in rest;
      fullKeys := fullKeys + [k];
      rest := rest - {k};
    }
    var a := new string[|fullKeys|](i requires 0 <= i < |fullKeys| => fullKeys[i]);
    assert a[..] == fullKeys;
    SortStrings(a);
    fullKeys := a[..];
    assert multiset(fullKeys) == multiset(fieldSet);
    forall k ensures multiset(fullKeys)[k] <= 1 && (k in fullKeys <==> k in fieldSet) {
      assert multiset(fieldSet)[k] == if k in fieldSet then 1 else 0;
    }
    OrderedDistinctIsSorted(fullKeys);
    ColumnsUnique(fieldSet, fullKeys);
  }

  /** `shortHeaders`: one label per full key, at the same position. */
  method ShortHeaders(fullKeys: seq<string>) returns (headers: seq<string>)
    ensures |headers| == |fullKeys|
    ensures forall i :: 0 <= i < |fullKeys| ==> headers[i] == ShortHeader(fullKeys[i])
  {
    var labels := new string[|fullKeys|](_ => "");
    for i := 0 to |fullKeys|
      invariant forall k :: 0 <= k < i ==> labels[k] == ShortHeader(fullKeys[k])
    {
      var parts := Split(fullKeys[i]);
      labels[i] := parts[|parts| - 1];
    }
    headers := labels[..];
  }
}
