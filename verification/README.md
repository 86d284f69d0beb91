# Credential resolver model

A Dafny model of the credential resolution engine `CredentialResolver` from
pip-services3-components (C#). The resolver holds an ordered list of
credential parameter bundles and an optional reference registry.
`LookupAsync` resolves a credential in two passes:

1. It returns the first bundle without a `store_key`, wherever that bundle
   sits in the list.
2. Only when there is no such bundle does it walk the store-backed bundles in
   order. For each bundle it asks the references for components matching
   `*:credential_store:*:*:*`, passes over components that are not credential
   stores, and returns the first non-null store answer.

Failure handling is asymmetric. With no references set, the lookup yields
null silently. With references set but no matching component, it throws a
`ReferenceException` that carries the correlation id. When components match
but none of them answers, it yields null and the scan goes on.

Files:

- `wrappers.dfy`: module `Wrappers`, the `Option` type that stands for a nullable value.
- `refer.dfy`: module `Refer`, five-part descriptors with `*` wildcards, the registry as an
  ordered sequence of (descriptor, component) entries, the query `GetOptional`, and the lemmas
  that say what it returns.
- `credential_resolver.dfy`: module `Auth`. It holds the bundle model, components, the outcome
  type, the pure specification of the lookup (`FirstDirect`, `FirstStoreAnswer` with its lemma, `ResolveInStores`,
  `ScanStores`, `LookupSpec`), and the class `CredentialResolver`. Its two lookup methods, `Lookup`
  and `LookupInStores`, are imperative loops proved equal to `LookupSpec` and `ResolveInStores`;
  `SetReferences`, `Configure` and `Add` state the new fields in terms of the old ones, and `GetAll`
  returns the bundle list.
- `resolver_properties.dfy`: module `ResolverProperties`, lemmas stating what the lookup promises.

Modelling choices:

- A bundle is a `map<string, string>`. It is store-backed exactly when it has the key `store_key`,
  and its store key is that key's value. `CredentialParams` is not part of this model; this is how
  `UseCredentialStore` and `StoreKey` are read.
- A component is `CredentialStore(credentials)` or `Other(name)`. A credential store is modelled by
  the finite map of the answers it gives per key; a key outside the map is a null answer.
- The `ReferenceException` is the outcome `ReferenceMissing(correlationId)`. A null result is
  `NotFound`, and a credential is `Found(c)`. The exception ends the whole lookup at once, just as
  the throw does in the source.
- The async calls are ordinary sequential calls. `Lookup` and `LookupInStores` have no `modifies`
  clause, so they cannot change the bundle list or the references. Since each returns a function
  of the current state, two lookups on unchanged state give the same result.
- The descriptor used by the code is `credential_store` (underscore), and that is what the model
  queries. The class doc comment writes `credential-store` (hyphen).

## Model

| member | source | states |
|---|---|---|
| `Refer.GetOptionalMatches` | src/Auth/CredentialResolver.cs:107 | every component of the store query belongs to a matching entry, every matching entry's component is returned, there are no more components than entries, and the result is empty iff no entry matches; order and count are fixed by `GetOptionalAppend` |
| `Refer.GetOptionalAppend` | src/Auth/CredentialResolver.cs:107 | the query distributes over concatenation of the registry, so components come back in registry order |
| `Auth.FirstStoreAnswerFirst` | src/Auth/CredentialResolver.cs:111-122 | the first store answer is null iff no component is a store answering the key; otherwise it is the answer of the first answering store, every earlier component being a non-store or answering null |
| `Auth.FirstDirect` | src/Auth/CredentialResolver.cs:137-141 | none iff every bundle is store-backed; otherwise the first bundle without `store_key`, all earlier ones being store-backed |
| `Auth.CredentialResolver.constructor` | src/Auth/CredentialResolver.cs:54-58 | the bundle list is the optional configuration's bundles (empty when absent) and the references are those given |
| `Auth.CredentialResolver.SetReferences` | src/Auth/CredentialResolver.cs:64-67 | the references are replaced by the argument, not added to; the bundle list is unchanged |
| `Auth.CredentialResolver.Configure` | src/Auth/CredentialResolver.cs:75-78 | the parsed bundles are appended after the existing ones; references unchanged |
| `Auth.CredentialResolver.GetAll` | src/Auth/CredentialResolver.cs:86-89 | returns the bundle list itself, in insertion order, with no store resolution |
| `Auth.CredentialResolver.Add` | src/Auth/CredentialResolver.cs:95-98 | the bundle is appended at the end; earlier bundles keep their positions; references unchanged |
| `Auth.CredentialResolver.LookupInStores` | src/Auth/CredentialResolver.cs:100-123 | the loop computes `ResolveInStores`: null for a bundle that is not store-backed or with no references, the exception when nothing matches, else the first non-null store answer or null |
| `Auth.CredentialResolver.Lookup` | src/Auth/CredentialResolver.cs:132-155 | the two loops compute `LookupSpec`: empty list gives null, then the first direct bundle, then the store scan |
| `ResolverProperties.StorePatternMatches` | src/Auth/CredentialResolver.cs:107 | the store pattern matches a descriptor iff its type segment is `credential_store` or a wildcard |
| `ResolverProperties.LookupEmpty` | src/Auth/CredentialResolver.cs:134 | an empty bundle list gives null, whatever the references |
| `ResolverProperties.DirectBundleWins` | src/Auth/CredentialResolver.cs:136-141 | with any bundle lacking `store_key`, the result is the first such bundle in list order, and it is the same for every registry and correlation id (no store consulted) |
| `ResolverProperties.AllStoreBackedInOrder` | src/Auth/CredentialResolver.cs:143-154 | when every bundle is store-backed, the lookup is null iff every bundle resolves to null, and otherwise is the outcome of the first bundle that resolves or throws, all earlier ones giving null |
| `ResolverProperties.ScanStoresFirst` | src/Auth/CredentialResolver.cs:144-154 | the scan is null iff every bundle resolves to null; otherwise it is the outcome of the first store-backed bundle that resolves or throws, all earlier ones giving null |
| `ResolverProperties.ScanStoresAppend` | src/Auth/CredentialResolver.cs:148-150 | once a prefix of the list resolves or throws, later bundles are not tried and cannot change the outcome |
| `ResolverProperties.FirstDirectAppend` | src/Auth/CredentialResolver.cs:137-141 | the first direct bundle of a concatenation comes from the left part when that part has one |
| `ResolverProperties.NoReferencesIsSilent` | src/Auth/CredentialResolver.cs:105 | with no references the lookup is the first direct bundle or null, never an exception |
| `ResolverProperties.MissingStoreRaises` | src/Auth/CredentialResolver.cs:107-109 | references set, no matching component and store-backed bundles only: the lookup throws the reference exception with the caller's correlation id |
| `ResolverProperties.OnlyOtherComponentsGiveNull` | src/Auth/CredentialResolver.cs:111-122 | when some component matches and no matching component is a credential store, the bundle resolves to null without error, whatever stores are registered under other descriptors |
| `ResolverProperties.StoresAskedInOrder` | src/Auth/CredentialResolver.cs:111-122 | with matching components, a bundle resolves to the first non-null store answer in order, to null iff all answer null, and never throws |
| `ResolverProperties.ResolvedComesFromStore` | src/Auth/CredentialResolver.cs:116-118 | a credential resolved for a bundle is the answer of a matching store for that bundle's store key |
| `ResolverProperties.LookupProvenance` | src/Auth/CredentialResolver.cs:132-155 | the lookup returns only null, the exception with the caller's correlation id, a direct bundle of the list, or a store answer for one of the list's store keys |
| `ResolverProperties.LookupAfterAppend` | src/Auth/CredentialResolver.cs:95-98 | appending bundles keeps an earlier direct answer, and keeps an earlier store answer or exception when the appended bundles are all store-backed |
| `ResolverProperties.DirectDeclaredSecondWins` | src/Auth/CredentialResolver.cs:136-141 | example: `[{store_key: missing}, {user: bob}]` resolves to `{user: bob}` |
| `ResolverProperties.SecondKeyResolves` | src/Auth/CredentialResolver.cs:143-152 | example: a store that answers null for `k1` and `{token: abc}` for `k2` makes `[{store_key: k1}, {store_key: k2}]` resolve to `{token: abc}` |

## Left out

- `CredentialParams.ManyFromConfig` and the dotted-path configuration parser: `Configure` takes an already parsed sequence of bundles. The `configAsDefault` flag belongs to that parser and is dropped.
- `CredentialParams` itself is not part of this model. `UseCredentialStore` is read as "`store_key` present" and `StoreKey` as its value, with exact, case-sensitive key comparison.
- The concrete `References` and `Descriptor` classes are not part of this model. The registry order is taken to be the order `GetOptional` reports. Segment matching is exact equality or a `*` on either side, with no case folding.
- Concrete `ICredentialStore` backends are not modelled. A store's answer depends on the key only, not on the correlation id, and store errors and storing credentials are not modelled.
- Null bundles in the list, which would make the source throw a null-reference exception, are not representable.
- `GetAll` aliasing: the source returns its internal list, which callers could mutate. The model returns the sequence value.
- The exception message text ("Credential store wasn't found to make lookup") is not carried; only the correlation id is.
- Asynchrony and concurrency: the lookup is sequential and no interleaving is modelled.
- Other files (discovery interface, ETW event source, counters, timing, cache stub, info factory, tests) have no resolver logic: they are I/O, platform tracing, wall-clock or reflection code.
