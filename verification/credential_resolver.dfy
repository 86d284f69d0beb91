/**
 * The credential resolution engine: an ordered list of credential parameter
 * bundles, an optional component registry, and the two-pass lookup that
 * prefers a self-contained bundle and otherwise asks the registered
 * credential stores, bundle by bundle and store by store.
 */
module Auth {
  import opened Wrappers
  import opened Refer

  /** One set of credential parameters, as a key/value bundle. */
  type Bundle = map<string, string>

  /** The parameter whose presence redirects a bundle to a credential store. */
  const StoreKeyName := "store_key"

  /** A bundle is store-backed ("indirect") exactly when it carries `store_key`. */
  predicate UseCredentialStore(b: Bundle)
  {
    StoreKeyName in b
  }

  /** The key under which a store-backed bundle is looked up. */
  function StoreKey(b: Bundle): string
    requires UseCredentialStore(b)
  {
    b[StoreKeyName]
  }

  /**
   * A registered component: either a credential store, seen through the
   * credentials it answers for each key, or any other component.
   */
  datatype Component = CredentialStore(credentials: map<string, Bundle>) | Other(name: string)
  {
    /** The store's answer for `key`; None stands for a null answer. */
    function Lookup(key: string): Option<Bundle>
      requires CredentialStore?
    {
      if key in credentials then Some(credentials[key]) else None
    }
  }

  /** The descriptor pattern the resolver queries for credential stores. */
  const CredentialStorePattern := Descriptor("*", "credential_store", "*", "*", "*")

  /** What a lookup ends in: a credential, null, or the thrown reference exception. */
  datatype Outcome = Found(credential: Bundle) | NotFound | ReferenceMissing(correlationId: string)

  /** Component `c` is a credential store with a non-null answer for `key`. */
  predicate Answers(c: Component, key: string)
  {
    c.CredentialStore? && c.Lookup(key).Some?
  }

  /**
   * The first non-null answer for `key` among `components`, asked in order;
   * components that are not credential stores are passed over.
   */
  function FirstStoreAnswer(components: seq<Component>, key: string): Option<Bundle>
    decreases |components|
  {
    if components == [] then None
    else if Answers(components[0], key) then components[0].Lookup(key)
    else FirstStoreAnswer(components[1..], key)
  }

  /**
   * The first store answer is null exactly when no component answers the key,
   * and otherwise it is the answer of the first component that does.
   */
  lemma {:induction false} FirstStoreAnswerFirst(components: seq<Component>, key: string)
    ensures FirstStoreAnswer(components, key).None? <==>
      forall i :: 0 <= i < |components| ==> !Answers(components[i], key)
    ensures FirstStoreAnswer(components, key).Some? ==>
      exists i :: 0 <= i < |components| && Answers(components[i], key)
        && FirstStoreAnswer(components, key).value == components[i].Lookup(key).value
        && forall j :: 0 <= j < i ==> !Answers(components[j], key)
    decreases |components|
  {
    if components != [] {
      FirstStoreAnswerFirst(components[1..], key);
      assert forall i :: 1 <= i < |components| ==> components[i] == components[1..][i - 1];
    }
  }

  /**
   * Resolution of one bundle through the credential stores: null for a bundle
   * that is not store-backed or when no registry is set; the reference
   * exception when a registry is set but nothing matches the store pattern;
   * otherwise the first non-null store answer, or null.
   */
  function ResolveInStores(refs: Option<Registry<Component>>, correlationId: string, credential: Bundle): Outcome
  {
    if !UseCredentialStore(credential) then NotFound
    else if refs.None? then NotFound
    else
      var components := GetOptional(refs.value, CredentialStorePattern);
      if |components| == 0 then ReferenceMissing(correlationId)
      else match FirstStoreAnswer(components, StoreKey(credential))
        case Some(b) => Found(b)
        case None => NotFound
  }

  /** The first bundle that is not store-backed, in list order. */
  function FirstDirect(credentials: seq<Bundle>): (r: Option<Bundle>)
    ensures r.None? <==> forall i :: 0 <= i < |credentials| ==> UseCredentialStore(credentials[i])
    ensures r.Some? ==>
      exists i :: 0 <= i < |credentials| && !UseCredentialStore(credentials[i])
        && r.value == credentials[i]
        && forall j :: 0 <= j < i ==> UseCredentialStore(credentials[j])
    decreases |credentials|
  {
    if credentials == [] then None
    else
      var rest := FirstDirect(credentials[1..]);
      assert forall i :: 1 <= i < |credentials| ==> credentials[i] == credentials[1..][i - 1];
      if !UseCredentialStore(credentials[0]) then Some(credentials[0]) else rest
  }

  /**
   * The second pass: the store-backed bundles in order, stopping at the first
   * one that resolves to a credential or raises the reference exception.
   */
  function ScanStores(credentials: seq<Bundle>, refs: Option<Registry<Component>>, correlationId: string): Outcome
    decreases |credentials|
  {
    if credentials == [] then NotFound
    else
      var o := if UseCredentialStore(credentials[0]) then ResolveInStores(refs, correlationId, credentials[0])
               else NotFound;
      if o.NotFound? then ScanStores(credentials[1..], refs, correlationId) else o
  }

  /** The whole lookup: null on an empty list, else a direct bundle, else the store scan. */
  function LookupSpec(credentials: seq<Bundle>, refs: Option<Registry<Component>>, correlationId: string): Outcome
  {
    if |credentials| == 0 then NotFound
    else match FirstDirect(credentials)
      case Some(b) => Found(b)
      case None => ScanStores(credentials, refs, correlationId)
  }

  /** The credential resolver: its bundle list and its (possibly null) references. */
  class CredentialResolver {
    var credentials: seq<Bundle>
    var references: Option<Registry<Component>>

    /** Optional, already parsed, configuration and optional references. */
    constructor (config: Option<seq<Bundle>>, references: Option<Registry<Component>>)
      ensures credentials == (if config.Some? then config.value else [])
      ensures this.references == references
    {
      credentials := [];
      this.references := None;
      new;
      if config.Some? {
        Configure(config.value);
      }
      if references.Some? {
        SetReferences(references);
      }
    }

    /** Replaces the references; the bundle list is untouched. */
    method SetReferences(references: Option<Registry<Component>>)
      modifies this`references
      ensures this.references == references
      ensures credentials == old(credentials)
    {
      this.references := references;
    }

    /** Appends the bundles parsed from a configuration after the existing ones. */
    method Configure(config: seq<Bundle>)
      modifies this`credentials
      ensures credentials == old(credentials) + config
      ensures references == old(references)
    {
      credentials := credentials + config;
    }

    /** The configured bundles in insertion order, with no store resolution. */
    method GetAll() returns (all: seq<Bundle>)
      ensures all == credentials
    {
      all := credentials;
    }

    /** Appends one bundle after the existing ones. */
    method Add(credential: Bundle)
      modifies this`credentials
      ensures credentials == old(credentials) + [credential]
      ensures references == old(references)
    {
      credentials := credentials + [credential];
    }

    /** Resolves one bundle through the credential stores found in the references. */
    method LookupInStores(correlationId: string, credential: Bundle) returns (r: Outcome)
      ensures r == ResolveInStores(references, correlationId, credential)
    {
      if !UseCredentialStore(credential) {
        return NotFound;
      }
      var key := StoreKey(credential);
      if references.None? {
        return NotFound;
      }
      var components := GetOptional(references.value, CredentialStorePattern);
      if |components| == 0 {
        return ReferenceMissing(correlationId);
      }
      var i := 0;
      while i < |components|
        invariant 0 <= i <= |components|
        invariant FirstStoreAnswer(components, key) == FirstStoreAnswer(components[i..], key)
      {
        assert components[i..][0] == components[i] && components[i..][1..] == components[i + 1..];
        var component := components[i];
        if component.CredentialStore? {
          var resolved := component.Lookup(key);
          if resolved.Some? {
            return Found(resolved.value);
          }
        }
        i := i + 1;
      }
      return NotFound;
    }

    /** Looks up a credential: a self-contained bundle first, then the stores. */
    method Lookup(correlationId: string) returns (r: Outcome)
      ensures r == LookupSpec(credentials, references, correlationId)
    {
      if |credentials| == 0 {
        return NotFound;
      }
      var i := 0;
      while i < |credentials|
        invariant 0 <= i <= |credentials|
        invariant forall j :: 0 <= j < i ==> UseCredentialStore(credentials[j])
      {
        if !UseCredentialStore(credentials[i]) {
          return Found(credentials[i]);
        }
        i := i + 1;
      }
      i := 0;
      while i < |credentials|
        invariant 0 <= i <= |credentials|
        invariant ScanStores(credentials, references, correlationId)
               == ScanStores(credentials[i..], references, correlationId)
      {
        assert credentials[i..][1..] == credentials[i + 1..];
        if UseCredentialStore(credentials[i]) {
          var resolved := LookupInStores(correlationId, credentials[i]);
          if !resolved.NotFound? {
            return resolved;
          }
        }
        i := i + 1;
      }
      return NotFound;
    }
  }
}
