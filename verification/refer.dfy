/**
 * The slice of the component-reference registry that the credential resolver
 * relies on: five-part descriptors with a "*" wildcard, and the query that
 * returns every registered component whose descriptor matches a pattern.
 */
module Refer {

  const Wildcard := "*"

  /** A component locator: group, type, kind, name and version. */
  datatype Descriptor = Descriptor(group: string, typ: string, kind: string, name: string, version: string)

  /** One segment agrees when either side is the wildcard or both are equal. */
  predicate SegmentMatches(a: string, b: string)
  {
    a == Wildcard || b == Wildcard || a == b
  }

  /** A descriptor matches a pattern when every one of the five segments agrees. */
  predicate Matches(pattern: Descriptor, d: Descriptor)
  {
    && SegmentMatches(pattern.group, d.group)
    && SegmentMatches(pattern.typ, d.typ)
    && SegmentMatches(pattern.kind, d.kind)
    && SegmentMatches(pattern.name, d.name)
    && SegmentMatches(pattern.version, d.version)
  }

  /** A registered component together with the descriptor it was registered under. */
  datatype Entry<C> = Entry(descriptor: Descriptor, component: C)

  /** The registry, in the order in which its query reports components. */
  type Registry<C> = seq<Entry<C>>

  /**
   * All components registered under a descriptor matching `pattern`, in registry
   * order; an empty result when nothing matches (the optional, non-throwing query).
   */
  function GetOptional<C>(refs: Registry<C>, pattern: Descriptor): seq<C>
    decreases |refs|
  {
    if refs == [] then []
    else if Matches(pattern, refs[0].descriptor) then [refs[0].component] + GetOptional(refs[1..], pattern)
    else GetOptional(refs[1..], pattern)
  }

  /**
   * The query returns exactly the components of the matching entries, no more
   * components than there are entries, and nothing iff no entry matches.
   */
  lemma {:induction false} GetOptionalMatches<C>(refs: Registry<C>, pattern: Descriptor)
    ensures |GetOptional(refs, pattern)| <= |refs|
    ensures forall k :: 0 <= k < |GetOptional(refs, pattern)| ==>
      exists i :: 0 <= i < |refs| && Matches(pattern, refs[i].descriptor)
        && refs[i].component == GetOptional(refs, pattern)[k]
    ensures forall i :: 0 <= i < |refs| && Matches(pattern, refs[i].descriptor) ==>
      refs[i].component in GetOptional(refs, pattern)
    ensures GetOptional(refs, pattern) == [] <==>
      forall i :: 0 <= i < |refs| ==> !Matches(pattern, refs[i].descriptor)
    decreases |refs|
  {
    if refs != [] {
      var rest := GetOptional(refs[1..], pattern);
      GetOptionalMatches(refs[1..], pattern);
      assert forall i :: 1 <= i < |refs| ==> refs[i] == refs[1..][i - 1];
      if Matches(pattern, refs[0].descriptor) {
        var r := GetOptional(refs, pattern);
        assert r == [refs[0].component] + rest;
        forall k | 0 <= k < |r|
          ensures exists i :: 0 <= i < |refs| && Matches(pattern, refs[i].descriptor) && refs[i].component == r[k]
        {
          if k > 0 {
            assert r[k] == rest[k - 1];
            var i :| 0 <= i < |refs[1..]| && Matches(pattern, refs[1..][i].descriptor) && refs[1..][i].component == rest[k - 1];
            assert refs[i + 1] == refs[1..][i];
          } else {
            assert refs[0].component == r[0];
          }
        }
      } else {
        forall k | 0 <= k < |rest|
          ensures exists i :: 0 <= i < |refs| && Matches(pattern, refs[i].descriptor) && refs[i].component == rest[k]
        {
          var i :| 0 <= i < |refs[1..]| && Matches(pattern, refs[1..][i].descriptor) && refs[1..][i].component == rest[k];
          assert refs[i + 1] == refs[1..][i];
        }
      }
    }
  }

  /** The query distributes over concatenation, so it keeps registry order. */
  lemma {:induction false} GetOptionalAppend<C>(a: Registry<C>, b: Registry<C>, pattern: Descriptor)
    ensures GetOptional(a + b, pattern) == GetOptional(a, pattern) + GetOptional(b, pattern)
    decreases |a|
  {
    if a == [] {
      assert a + b == b;
    } else {
      assert (a + b)[0] == a[0];
      assert (a + b)[1..] == a[1..] + b;
      GetOptionalAppend(a[1..], b, pattern);
    }
  }
}
