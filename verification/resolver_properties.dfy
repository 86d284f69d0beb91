/**
 * What the credential lookup promises: the ordering of its two passes, its
 * short-circuits, the asymmetric failure rules, where a returned credential
 * can come from, and how appending bundles affects an earlier answer.
 */
module ResolverProperties {
  import opened Wrappers
  import opened Refer
  import opened Auth

  /** `b` is the answer some matching credential store gives for the store key of a store-backed bundle. */
  ghost predicate IsStoreAnswer(credentials: seq<Bundle>, refs: Option<Registry<Component>>, b: Bundle)
  {
    && refs.Some?
    && exists i ::
         && 0 <= i < |credentials| && UseCredentialStore(credentials[i])
         && exists c ::
              && c in GetOptional(refs.value, CredentialStorePattern)
              && Answers(c, StoreKey(credentials[i]))
              && c.Lookup(StoreKey(credentials[i])).value == b
  }

  /**
   * The store query matches exactly the components registered with type
   * `credential_store` (or a wildcard type), whatever their other segments.
   */
  lemma StorePatternMatches(d: Descriptor)
    ensures Matches(CredentialStorePattern, d) <==> d.typ == "credential_store" || d.typ == Wildcard
  {
  }

  /** An empty list is "not found" whatever the references are. */
  lemma LookupEmpty(refs: Option<Registry<Component>>, correlationId: string)
    ensures LookupSpec([], refs, correlationId) == NotFound
  {
  }

  /**
   * With any self-contained bundle present, the lookup returns the first one
   * in list order, even when store-backed bundles precede it, and the answer
   * is the same for every registry and correlation id: no store is consulted.
   */
  lemma DirectBundleWins(credentials: seq<Bundle>, refs: Option<Registry<Component>>, correlationId: string)
    requires exists i :: 0 <= i < |credentials| && !UseCredentialStore(credentials[i])
    ensures exists j ::
      && 0 <= j < |credentials| && !UseCredentialStore(credentials[j])
      && (forall k :: 0 <= k < j ==> UseCredentialStore(credentials[k]))
      && LookupSpec(credentials, refs, correlationId) == Found(credentials[j])
    ensures forall refs', id' :: LookupSpec(credentials, refs', id') == LookupSpec(credentials, refs, correlationId)
  {
    var first := FirstDirect(credentials);
    var j :| 0 <= j < |credentials| && !UseCredentialStore(credentials[j])
      && first.value == credentials[j]
      && forall k :: 0 <= k < j ==> UseCredentialStore(credentials[k]);
    assert LookupSpec(credentials, refs, correlationId) == Found(credentials[j]);
  }

  /**
   * When every bundle is store-backed the lookup tries them in list order: it
   * is "not found" exactly when every bundle resolves to null, and otherwise
   * it is the outcome of the first bundle that resolves or raises, every
   * earlier one having given null.
   */
  lemma AllStoreBackedInOrder(credentials: seq<Bundle>, refs: Option<Registry<Component>>, correlationId: string)
    requires forall i :: 0 <= i < |credentials| ==> UseCredentialStore(credentials[i])
    ensures LookupSpec(credentials, refs, correlationId).NotFound? <==>
      forall i :: 0 <= i < |credentials| ==> ResolveInStores(refs, correlationId, credentials[i]).NotFound?
    ensures !LookupSpec(credentials, refs, correlationId).NotFound? ==>
      exists i :: 0 <= i < |credentials|
        && LookupSpec(credentials, refs, correlationId) == ResolveInStores(refs, correlationId, credentials[i])
        && forall k :: 0 <= k < i ==> ResolveInStores(refs, correlationId, credentials[k]).NotFound?
  {
    ScanStoresFirst(credentials, refs, correlationId);
  }

  /** Proof step for `ScanStoresFirst`: the scan unfolded once. */
  lemma ScanStoresStep(credentials: seq<Bundle>, refs: Option<Registry<Component>>, correlationId: string)
    requires credentials != []
    ensures var o := ResolveInStores(refs, correlationId, credentials[0]);
      && (!o.NotFound? ==> UseCredentialStore(credentials[0]))
      && ScanStores(credentials, refs, correlationId)
         == if o.NotFound? then ScanStores(credentials[1..], refs, correlationId) else o
  {
  }

  /**
   * The store scan tries bundles in order: it is "not found" exactly when no
   * bundle resolves, and otherwise it is the outcome of the first store-backed
   * bundle that resolves or raises, every earlier one having given null.
   */
  lemma {:induction false} ScanStoresFirst(credentials: seq<Bundle>, refs: Option<Registry<Component>>, correlationId: string)
    ensures ScanStores(credentials, refs, correlationId).NotFound? <==>
      forall i :: 0 <= i < |credentials| ==> ResolveInStores(refs, correlationId, credentials[i]).NotFound?
    ensures !ScanStores(credentials, refs, correlationId).NotFound? ==>
      exists i :: 0 <= i < |credentials| && UseCredentialStore(credentials[i])
        && ScanStores(credentials, refs, correlationId) == ResolveInStores(refs, correlationId, credentials[i])
        && forall k :: 0 <= k < i ==> ResolveInStores(refs, correlationId, credentials[k]).NotFound?
    decreases |credentials|
  {
    if credentials != [] {
      var tail := credentials[1..];
      var o := ResolveInStores(refs, correlationId, credentials[0]);
      var whole := ScanStores(credentials, refs, correlationId);
      var rest := ScanStores(tail, refs, correlationId);
      ScanStoresStep(credentials, refs, correlationId);
      ScanStoresFirst(tail, refs, correlationId);
      if !o.NotFound? {
        assert whole == o;
      } else if !rest.NotFound? {
        var i :| 0 <= i < |tail| && UseCredentialStore(tail[i])
          && rest == ResolveInStores(refs, correlationId, tail[i])
          && forall k :: 0 <= k < i ==> ResolveInStores(refs, correlationId, tail[k]).NotFound?;
        assert credentials[i + 1] == tail[i];
        forall k | 0 <= k < i + 1
          ensures ResolveInStores(refs, correlationId, credentials[k]).NotFound?
        {
          if k > 0 {
            assert credentials[k] == tail[k - 1];
          }
        }
      } else {
        forall k | 0 <= k < |credentials|
          ensures ResolveInStores(refs, correlationId, credentials[k]).NotFound?
        {
          if k > 0 {
            assert credentials[k] == tail[k - 1];
          }
        }
      }
      if whole.NotFound? {
        forall k | 1 <= k < |credentials|
          ensures ResolveInStores(refs, correlationId, credentials[k]).NotFound?
        {
          assert credentials[k] == tail[k - 1];
        }
      }
    }
  }

  /**
   * Short-circuit: once a prefix of the list has resolved or raised, the
   * bundles after it are never tried and cannot change the outcome.
   */
  lemma {:induction false} ScanStoresAppend(a: seq<Bundle>, b: seq<Bundle>, refs: Option<Registry<Component>>, correlationId: string)
    ensures ScanStores(a + b, refs, correlationId)
         == if ScanStores(a, refs, correlationId).NotFound? then ScanStores(b, refs, correlationId)
            else ScanStores(a, refs, correlationId)
    decreases |a|
  {
    if a == [] {
      assert a + b == b;
    } else {
      assert (a + b)[0] == a[0];
      assert (a + b)[1..] == a[1..] + b;
      ScanStoresAppend(a[1..], b, refs, correlationId);
    }
  }

  /** The first self-contained bundle of a concatenation comes from the left part when it has one. */
  lemma {:induction false} FirstDirectAppend(a: seq<Bundle>, b: seq<Bundle>)
    ensures FirstDirect(a + b) == if FirstDirect(a).Some? then FirstDirect(a) else FirstDirect(b)
    decreases |a|
  {
    if a == [] {
      assert a + b == b;
    } else {
      assert (a + b)[0] == a[0];
      assert (a + b)[1..] == a[1..] + b;
      FirstDirectAppend(a[1..], b);
    }
  }

  /**
   * Without references every store-backed bundle resolves to null rather than
   * an error, so the lookup is the first self-contained bundle or "not found".
   */
  lemma NoReferencesIsSilent(credentials: seq<Bundle>, correlationId: string)
    ensures LookupSpec(credentials, None, correlationId)
         == if FirstDirect(credentials).Some? then Found(FirstDirect(credentials).value) else NotFound
  {
    ScanStoresFirst(credentials, None, correlationId);
  }

  /**
   * With references set but no component registered under a descriptor that
   * matches the store pattern, a list of store-backed bundles raises the
   * reference exception carrying the caller's correlation id.
   */
  lemma MissingStoreRaises(credentials: seq<Bundle>, registry: Registry<Component>, correlationId: string)
    requires |credentials| > 0
    requires forall i :: 0 <= i < |credentials| ==> UseCredentialStore(credentials[i])
    requires forall i :: 0 <= i < |registry| ==> !Matches(CredentialStorePattern, registry[i].descriptor)
    ensures LookupSpec(credentials, Some(registry), correlationId) == ReferenceMissing(correlationId)
  {
    GetOptionalMatches(registry, CredentialStorePattern);
  }

  /**
   * Components that match the store pattern but are not credential stores are
   * skipped without error: if some component matches and every matching one
   * is of that kind, the bundle resolves to null (not the reference exception)
   * and the outer scan goes on, whatever stores are registered under other
   * descriptors.
   */
  lemma OnlyOtherComponentsGiveNull(registry: Registry<Component>, correlationId: string, credential: Bundle)
    requires UseCredentialStore(credential)
    requires exists i :: 0 <= i < |registry| && Matches(CredentialStorePattern, registry[i].descriptor)
    requires forall i :: 0 <= i < |registry| && Matches(CredentialStorePattern, registry[i].descriptor) ==>
      registry[i].component.Other?
    ensures ResolveInStores(Some(registry), correlationId, credential) == NotFound
  {
    var components := GetOptional(registry, CredentialStorePattern);
    GetOptionalMatches(registry, CredentialStorePattern);
    FirstStoreAnswerFirst(components, StoreKey(credential));
    forall k | 0 <= k < |components|
      ensures !Answers(components[k], StoreKey(credential))
    {
      var i :| 0 <= i < |registry| && Matches(CredentialStorePattern, registry[i].descriptor)
        && registry[i].component == components[k];
    }
  }

  /**
   * Within one store-backed bundle, the matching components are asked in
   * order: the first non-null store answer is the result, and null when all
   * of them answer null.
   */
  lemma StoresAskedInOrder(registry: Registry<Component>, correlationId: string, credential: Bundle)
    requires UseCredentialStore(credential)
    requires GetOptional(registry, CredentialStorePattern) != []
    ensures var components := GetOptional(registry, CredentialStorePattern);
      var key := StoreKey(credential);
      && (ResolveInStores(Some(registry), correlationId, credential).NotFound? <==>
          forall k :: 0 <= k < |components| ==> !Answers(components[k], key))
      && (ResolveInStores(Some(registry), correlationId, credential).Found? ==>
          exists k :: 0 <= k < |components| && Answers(components[k], key)
            && ResolveInStores(Some(registry), correlationId, credential).credential == components[k].Lookup(key).value
            && forall j :: 0 <= j < k ==> !Answers(components[j], key))
      && !ResolveInStores(Some(registry), correlationId, credential).ReferenceMissing?
  {
    FirstStoreAnswerFirst(GetOptional(registry, CredentialStorePattern), StoreKey(credential));
  }

  /** A bundle's own store resolution only ever yields a store's answer for its key. */
  lemma ResolvedComesFromStore(refs: Option<Registry<Component>>, correlationId: string, credential: Bundle)
    requires ResolveInStores(refs, correlationId, credential).Found?
    ensures UseCredentialStore(credential) && refs.Some?
    ensures exists c ::
      && c in GetOptional(refs.value, CredentialStorePattern)
      && Answers(c, StoreKey(credential))
      && c.Lookup(StoreKey(credential)).value == ResolveInStores(refs, correlationId, credential).credential
  {
    var components := GetOptional(refs.value, CredentialStorePattern);
    var key := StoreKey(credential);
    FirstStoreAnswerFirst(components, key);
    var k :| 0 <= k < |components| && Answers(components[k], key)
      && components[k].Lookup(key).value == ResolveInStores(refs, correlationId, credential).credential;
    assert components[k] in components;
  }

  /**
   * The lookup returns only null, the reference exception with the caller's
   * correlation id, a self-contained bundle of the list, or a store's answer
   * for one of the list's store keys.
   */
  lemma LookupProvenance(credentials: seq<Bundle>, refs: Option<Registry<Component>>, correlationId: string)
    ensures var r := LookupSpec(credentials, refs, correlationId);
      || r == NotFound
      || r == ReferenceMissing(correlationId)
      || (r.Found? && r.credential in credentials && !UseCredentialStore(r.credential))
      || (r.Found? && IsStoreAnswer(credentials, refs, r.credential))
  {
    var r := LookupSpec(credentials, refs, correlationId);
    if |credentials| > 0 && FirstDirect(credentials).None? {
      ScanStoresFirst(credentials, refs, correlationId);
      if !r.NotFound? {
        var i :| 0 <= i < |credentials| && UseCredentialStore(credentials[i])
          && r == ResolveInStores(refs, correlationId, credentials[i])
          && forall k :: 0 <= k < i ==> ResolveInStores(refs, correlationId, credentials[k]).NotFound?;
        if r.Found? {
          ResolvedComesFromStore(refs, correlationId, credentials[i]);
        }
      }
    }
  }

  /**
   * Appending bundles keeps earlier answers: a self-contained answer always
   * survives, and a store answer or exception survives as long as the new
   * bundles are store-backed too.
   */
  lemma LookupAfterAppend(a: seq<Bundle>, b: seq<Bundle>, refs: Option<Registry<Component>>, correlationId: string)
    ensures FirstDirect(a).Some? ==> LookupSpec(a + b, refs, correlationId) == LookupSpec(a, refs, correlationId)
    ensures FirstDirect(b).None? && !LookupSpec(a, refs, correlationId).NotFound? ==>
      LookupSpec(a + b, refs, correlationId) == LookupSpec(a, refs, correlationId)
  {
    FirstDirectAppend(a, b);
    ScanStoresAppend(a, b, refs, correlationId);
    if a == [] {
      assert a + b == b;
    }
  }

  /** Example: a self-contained bundle declared second still wins. */
  lemma DirectDeclaredSecondWins(registry: Registry<Component>, correlationId: string)
    ensures LookupSpec([map["store_key" := "missing"], map["user" := "bob"]], Some(registry), correlationId)
         == Found(map["user" := "bob"])
  {
  }

  /** Example: the store answers null for the first key and a token for the second. */
  lemma SecondKeyResolves(correlationId: string)
    ensures
      var store := CredentialStore(map["k2" := map["token" := "abc"]]);
      var registry := [Entry(Descriptor("pip-services", "credential_store", "memory", "default", "1.0"), store)];
      LookupSpec([map["store_key" := "k1"], map["store_key" := "k2"]], Some(registry), correlationId)
        == Found(map["token" := "abc"])
  {
    var store := CredentialStore(map["k2" := map["token" := "abc"]]);
    var registry := [Entry(Descriptor("pip-services", "credential_store", "memory", "default", "1.0"), store)];
    var credentials := [map["store_key" := "k1"], map["store_key" := "k2"]];
    assert GetOptional(registry, CredentialStorePattern) == [store];
    assert [store][1..] == [];
    assert FirstStoreAnswer([store], "k1") == None;
    assert FirstStoreAnswer([store], "k2") == Some(map["token" := "abc"]);
    assert ResolveInStores(Some(registry), correlationId, credentials[0]) == NotFound;
    assert credentials[1..] == [credentials[1]];
  }
}
