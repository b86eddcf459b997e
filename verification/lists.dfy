/**
 * The list operations the department tree applies to its flat lists of
 * names: filtering one name out, filtering a whole list of names out one
 * after the other, and appending the names that are still missing.
 */
module Lists {

  /** No name occurs twice in `s`. */
  predicate NoDup(s: seq<string>) {
    forall i, j :: 0 <= i < j < |s| ==> s[i] != s[j]
  }

  /** Every name of `names` occurs in `s`. */
  predicate AllIn(names: seq<string>, s: seq<string>) {
    forall k :: 0 <= k < |names| ==> names[k] in s
  }

  /** `s` with every occurrence of `x` filtered out, the order of the rest kept. */
  function Without(s: seq<string>, x: string): (r: seq<string>)
    ensures forall y :: y in r <==> y in s && y != x
    ensures |r| <= |s|
    ensures x in s ==> |r| < |s|
  {
    if s == [] then []
    else if s[0] == x then Without(s[1..], x)
    else [s[0]] + Without(s[1..], x)
  }

  /**
   * Filters the names of `xs` out of `s` one after the other, first name
   * first: the result after the last name is the last filter applied to the
   * result after all the names before it.
   */
  function RemoveAll(s: seq<string>, xs: seq<string>): (r: seq<string>)
    ensures forall y :: y in r <==> y in s && y !in xs
    ensures |r| <= |s|
    decreases |xs|
  {
    if xs == [] then s
    else
      var init := xs[..|xs| - 1];
      assert xs == init + [xs[|xs| - 1]];
      Without(RemoveAll(s, init), xs[|xs| - 1])
  }

  /**
   * Goes through `xs` in order and appends each name that is not yet present
   * (in `s` or among the names appended before it).
   */
  function AppendMissing(s: seq<string>, xs: seq<string>): (r: seq<string>)
    ensures |s| <= |r| && r[..|s|] == s
    ensures forall y :: y in r <==> y in s || y in xs
    ensures forall k :: |s| <= k < |r| ==> r[k] in xs
    decreases |xs|
  {
    if xs == [] then s
    else
      var init := xs[..|xs| - 1];
      var last := xs[|xs| - 1];
      assert xs == init + [last];
      var t := AppendMissing(s, init);
      if last in t then t
      else
        assert (t + [last])[..|t|] == t;
        t + [last]
  }

  /** Filtering keeps a list free of duplicates. */
  lemma {:induction false} WithoutNoDup(s: seq<string>, x: string)
    requires NoDup(s)
    ensures NoDup(Without(s, x))
  {
    if s != [] {
      WithoutNoDup(s[1..], x);
      if s[0] != x {
        assert s[0] !in s[1..];
      }
    }
  }

  /** Filtering a list of names out keeps a list free of duplicates. */
  lemma {:induction false} RemoveAllNoDup(s: seq<string>, xs: seq<string>)
    requires NoDup(s)
    ensures NoDup(RemoveAll(s, xs))
    decreases |xs|
  {
    if xs != [] {
      RemoveAllNoDup(s, xs[..|xs| - 1]);
      WithoutNoDup(RemoveAll(s, xs[..|xs| - 1]), xs[|xs| - 1]);
    }
  }

  /**
   * No appended name equals any name before it, so appending the missing
   * names keeps a list free of duplicates.
   */
  lemma {:induction false} AppendMissingFresh(s: seq<string>, xs: seq<string>)
    ensures forall j, k :: 0 <= j < k < |AppendMissing(s, xs)| && |s| <= k ==>
              AppendMissing(s, xs)[j] != AppendMissing(s, xs)[k]
    ensures NoDup(s) ==> NoDup(AppendMissing(s, xs))
    decreases |xs|
  {
    if xs != [] {
      var init := xs[..|xs| - 1];
      var last := xs[|xs| - 1];
      AppendMissingFresh(s, init);
      var t := AppendMissing(s, init);
      if last !in t {
        var r := t + [last];
        assert AppendMissing(s, xs) == r;
        forall j, k | 0 <= j < k < |r| && |s| <= k ensures r[j] != r[k] {
          assert r[j] == t[j];
          if k < |t| {
            assert r[k] == t[k];
            assert t[j] != t[k];
          } else {
            assert t[j] in t;
          }
        }
      } else {
        assert AppendMissing(s, xs) == t;
      }
    }
  }

  /** Filtering out a name that does not occur changes nothing. */
  lemma {:induction false} WithoutAbsent(s: seq<string>, x: string)
    requires x !in s
    ensures Without(s, x) == s
  {
    if s != [] {
      WithoutAbsent(s[1..], x);
    }
  }

  /** Filtering distributes over concatenation. */
  lemma {:induction false} WithoutConcat(s: seq<string>, t: seq<string>, x: string)
    ensures Without(s + t, x) == Without(s, x) + Without(t, x)
  {
    if s == [] {
      assert s + t == t;
    } else {
      assert (s + t)[1..] == s[1..] + t;
      WithoutConcat(s[1..], t, x);
    }
  }

  /** Filtering out names none of which occurs changes nothing. */
  lemma {:induction false} RemoveAllAbsent(s: seq<string>, xs: seq<string>)
    requires forall k :: 0 <= k < |xs| ==> xs[k] !in s
    ensures RemoveAll(s, xs) == s
    decreases |xs|
  {
    if xs != [] {
      RemoveAllAbsent(s, xs[..|xs| - 1]);
      WithoutAbsent(s, xs[|xs| - 1]);
    }
  }

  /** Filtering a list of names distributes over concatenation. */
  lemma {:induction false} RemoveAllConcat(s: seq<string>, t: seq<string>, xs: seq<string>)
    ensures RemoveAll(s + t, xs) == RemoveAll(s, xs) + RemoveAll(t, xs)
    decreases |xs|
  {
    if xs != [] {
      var init := xs[..|xs| - 1];
      RemoveAllConcat(s, t, init);
      WithoutConcat(RemoveAll(s, init), RemoveAll(t, init), xs[|xs| - 1]);
    }
  }

  /** Filtering names out of a one-name list leaves it whole or empty. */
  lemma {:induction false} RemoveAllSingleton(a: string, xs: seq<string>)
    ensures RemoveAll([a], xs) == if a in xs then [] else [a]
    decreases |xs|
  {
    if xs != [] {
      var init := xs[..|xs| - 1];
      RemoveAllSingleton(a, init);
      assert Without([], xs[|xs| - 1]) == [];
      assert [a][1..] == [];
    }
  }

  /** Filtering out a list of names that covers all of `t` leaves nothing. */
  lemma {:induction false} RemoveAllCovered(t: seq<string>, xs: seq<string>)
    requires forall y :: y in t ==> y in xs
    ensures RemoveAll(t, xs) == []
  {
    if t != [] {
      assert t == [t[0]] + t[1..];
      RemoveAllConcat([t[0]], t[1..], xs);
      RemoveAllSingleton(t[0], xs);
      RemoveAllCovered(t[1..], xs);
    }
  }

  /** One more name for the append loop: it is appended only when missing. */
  lemma AppendMissingSnoc(s: seq<string>, xs: seq<string>, x: string)
    ensures AppendMissing(s, xs + [x]) ==
            var t := AppendMissing(s, xs); if x in t then t else t + [x]
  {
    assert (xs + [x])[..|xs|] == xs;
  }

  /** One more name for the filter loop: it is filtered out last. */
  lemma RemoveAllSnoc(s: seq<string>, xs: seq<string>, x: string)
    ensures RemoveAll(s, xs + [x]) == Without(RemoveAll(s, xs), x)
  {
    assert (xs + [x])[..|xs|] == xs;
  }
}
