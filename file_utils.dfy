/** The path sanitiser of file_utils.py: clean_path deletes every character of a fixed denylist. */
module FileUtils {

  /** The characters clean_path deletes, in the order in which its loop deletes them. */
  const Denylist: seq<char> :=
    ['\\', '#', '%', '@', '&', '{', '}', '<', '>', '`', '?', '/', '!', '"', ':', '=', '*', '|', ' ', '\'']

  predicate Denied(c: char) {
    c in Denylist
  }

  /** s with every character that occurs in cs left out, the others kept in order. */
  function Without(s: string, cs: seq<char>): (r: string)
    ensures |r| <= |s|
  {
    if s == [] then [] else (if s[0] in cs then [] else [s[0]]) + Without(s[1..], cs)
  }

  lemma {:induction false} WithoutExcludes(s: string, cs: seq<char>)
    ensures forall i :: 0 <= i < |Without(s, cs)| ==> Without(s, cs)[i] !in cs
  {
    if s != [] {
      WithoutExcludes(s[1..], cs);
    }
  }

  /** Python's `s.replace(c, "")` for a one-character needle. */
  function RemoveChar(s: string, c: char): string {
    Without(s, [c])
  }

  /** What clean_path promises: the input with the denylisted characters deleted. */
  function Sanitized(s: string): (r: string)
    ensures |r| <= |s|
    ensures forall i :: 0 <= i < |r| ==> !Denied(r[i])
  {
    WithoutExcludes(s, Denylist);
    Without(s, Denylist)
  }

  lemma {:induction false} WithoutNothing(s: string)
    ensures Without(s, []) == s
  {
    if s != [] {
      WithoutNothing(s[1..]);
    }
  }

  /** Deleting one more character after a batch is one bigger batch. */
  lemma {:induction false} WithoutThenRemove(s: string, cs: seq<char>, c: char)
    ensures RemoveChar(Without(s, cs), c) == Without(s, cs + [c])
  {
    if s != [] {
      WithoutThenRemove(s[1..], cs, c);
      var head := if s[0] in cs then [] else [s[0]];
      WithoutConcat(head, Without(s[1..], cs), [c]);
      assert head + Without(s[1..], cs) == Without(s, cs);
    }
  }

  lemma {:induction false} WithoutConcat(a: string, b: string, cs: seq<char>)
    ensures Without(a + b, cs) == Without(a, cs) + Without(b, cs)
  {
    if a == [] {
      assert a + b == b;
    } else {
      assert (a + b)[0] == a[0];
      assert (a + b)[1..] == a[1..] + b;
      WithoutConcat(a[1..], b, cs);
    }
  }

  lemma {:induction false} WithoutClean(s: string, cs: seq<char>)
    requires forall i :: 0 <= i < |s| ==> s[i] !in cs
    ensures Without(s, cs) == s
  {
    if s != [] {
      WithoutClean(s[1..], cs);
    }
  }

  lemma {:induction false} WithoutShrinks(s: string, cs: seq<char>, k: nat)
    requires k < |s| && s[k] in cs
    ensures |Without(s, cs)| < |s|
  {
    if k > 0 {
      WithoutShrinks(s[1..], cs, k - 1);
    }
  }

  /**
   * The loop of clean_path: `cleaned_path` starts as the input and loses one
   * denylisted character per pass; it ends as Sanitized(path).
   */
  method CleanPath(path: string) returns (cleaned: string)
    ensures cleaned == Sanitized(path)
  {
    cleaned := path;
    WithoutNothing(path);
    for k := 0 to |Denylist|
      invariant cleaned == Without(path, Denylist[..k])
    {
      WithoutThenRemove(path, Denylist[..k], Denylist[k]);
      assert Denylist[..k] + [Denylist[k]] == Denylist[..k + 1];
      cleaned := RemoveChar(cleaned, Denylist[k]);
    }
    assert Denylist[..|Denylist|] == Denylist;
  }

  /** Sanitizing distributes over concatenation. */
  lemma SanitizedConcat(a: string, b: string)
    ensures Sanitized(a + b) == Sanitized(a) + Sanitized(b)
  {
    WithoutConcat(a, b, Denylist);
  }

  /** On one character it is a filter: a denylisted character goes, any other stays. */
  lemma SanitizedChar(c: char)
    ensures Sanitized([c]) == if Denied(c) then [] else [c]
  {
    assert [c][1..] == [];
  }

  /** Every character that is not denylisted survives, as often as it occurs; denylisted ones do not. */
  lemma {:induction false} SanitizedCounts(s: string, c: char)
    ensures multiset(Sanitized(s))[c] == if Denied(c) then 0 else multiset(s)[c]
  {
    if s != [] {
      SanitizedCounts(s[1..], c);
      assert s == [s[0]] + s[1..];
      SanitizedConcat([s[0]], s[1..]);
      SanitizedChar(s[0]);
    }
  }

  /** Sanitizing twice is sanitizing once. */
  lemma SanitizedIdempotent(s: string)
    ensures Sanitized(Sanitized(s)) == Sanitized(s)
  {
    WithoutClean(Sanitized(s), Denylist);
  }

  /** The result is never longer, and it is exactly as long iff the input has no denylisted character. */
  lemma SanitizedLength(s: string)
    ensures |Sanitized(s)| <= |s|
    ensures |Sanitized(s)| == |s| <==> forall i :: 0 <= i < |s| ==> !Denied(s[i])
    ensures (forall i :: 0 <= i < |s| ==> !Denied(s[i])) ==> Sanitized(s) == s
  {
    if forall i :: 0 <= i < |s| ==> !Denied(s[i]) {
      WithoutClean(s, Denylist);
    } else {
      var k :| 0 <= k < |s| && Denied(s[k]);
      WithoutShrinks(s, Denylist, k);
    }
  }

  lemma WithoutCons(c: char, rest: string, cs: seq<char>)
    ensures Without([c] + rest, cs) == (if c in cs then [] else [c]) + Without(rest, cs)
  {
    assert ([c] + rest)[1..] == rest;
  }

  /** Allowed and denylisted characters alternating: only the allowed ones are left. */
  lemma {:induction false} SanitizedAlternating(a: char, x: char, b: char, y: char, c: char, z: char)
    requires !Denied(a) && !Denied(b) && !Denied(c)
    requires Denied(x) && Denied(y) && Denied(z)
    ensures Sanitized([a, x, b, y, c, z]) == [a, b, c]
  {
    var d := Denylist;
    WithoutCons(z, [], d);
    WithoutCons(c, [z], d);
    WithoutCons(y, [c, z], d);
    assert [y, c, z] == [y] + [c, z];
    assert Without([y, c, z], d) == [c];
    WithoutCons(b, [y, c, z], d);
    assert [b, y, c, z] == [b] + [y, c, z];
    WithoutCons(x, [b, y, c, z], d);
    assert [x, b, y, c, z] == [x] + [b, y, c, z];
    WithoutCons(a, [x, b, y, c, z], d);
    assert [a, x, b, y, c, z] == [a] + [x, b, y, c, z];
  }

  /** A worked instance: clean_path("A/B:C?") == "ABC". */
  lemma SanitizedExample()
    ensures Sanitized("A/B:C?") == "ABC"
  {
    SanitizedAlternating('A', '/', 'B', ':', 'C', '?');
  }
}
