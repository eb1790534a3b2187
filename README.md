# Libplanet state-reference lookup, in Dafny

This project models the state-reference lookup in Libplanet's store
extension methods. A *state reference* is the hash and index of a block
whose actions changed an address's state. For one namespace and address,
the store yields these `(hash, index)` pairs, most recent block first.

To find the pair at or before a boundary block `lookupUntil`,
`LookupStateReferenceWithIndex` does three things:

- It throws `ArgumentNullException` when the boundary is null.
- Otherwise it walks the pairs front to back and returns a copy of the first pair whose index is at or below the boundary's index.
- It returns null when the pairs run out.

`LookupStateReference` keeps just the hash of that result.

How the model represents the C# types:

- The store's output is a `seq<StateRef>` given as a parameter.
- The nullable boundary is an `Option<Block>`, where `Block` carries only the index.
- A C# `long` is the `Int64` newtype.
- A thrown exception is the `Failure` case of `Result`.
- A null result is `None`.

The method is proved equal to the pure function `LookupWithIndex`. So it
is deterministic and writes nothing: two calls with the same sequence and
boundary give the same result. It has two ghost out-parameters:

- `iterated` says whether the store's enumeration was started. It is false exactly when the boundary is null.
- `consumed` counts how many pairs the enumeration handed out. The scan stops right after the first match. When nothing matches, it reads every pair.

The inclusive bound and the "latest block" meaning are proved as lemmas
about the specification function `FirstAtOrBelow`. The "latest block"
lemma assumes the store's strictly descending order.

## Model

| member | source | states |
|---|---|---|
| `StoreExtension.FirstAtOrBelow` | Libplanet/Store/StoreExtension.cs:55-63 | A returned pair is in the sequence, with index at or below the bound. The result is none exactly when every pair's index is above the bound, so an empty sequence gives none. |
| `StoreExtension.FirstMatchIsResult` | Libplanet/Store/StoreExtension.cs:55-60 | If position k holds the first pair at or below the bound, that pair is the result. |
| `StoreExtension.ResultIsFirstMatch` | Libplanet/Store/StoreExtension.cs:55-60 | A returned pair sits at some position k. That pair is at or below the bound, and every earlier pair is above it. |
| `StoreExtension.ScanOfConcatenation` | Libplanet/Store/StoreExtension.cs:55-60 | Scanning `refs + rest` gives the scan of `refs` when `refs` has a match, and the scan of `rest` otherwise. So the early return never looks past the first match. |
| `StoreExtension.DescendingFirstMatchIsLatest` | Libplanet/Store/StoreExtension.cs:19-20 | Take a strictly descending sequence and any pair at or below the bound. Its index is at most the returned pair's index, and a pair with the same index is the returned pair. So the result is the latest qualifying block. |
| `StoreExtension.InclusiveBound` | Libplanet/Store/StoreExtension.cs:57 | A pair whose index equals the bound qualifies, so the result is not none. In a strictly descending sequence that pair is the result. |
| `StoreExtension.LookupWithIndex` | Libplanet/Store/StoreExtension.cs:48-63 | A null boundary, and only that, gives `ArgumentNullException("lookupUntil")`. A found pair is in the sequence, with index at or below the boundary's index. Null comes back exactly when the boundary is present and every pair is above it. |
| `StoreExtension.LookupStateReferenceWithIndex` | Libplanet/Store/StoreExtension.cs:41-64 | The loop's result equals `LookupWithIndex`, so it is deterministic and has no effects. The store is not iterated when the boundary is null. A found pair is the pair last handed out, and it is the first match. Null comes back only after every pair has been read. |
| `StoreExtension.LookupStateReference` | Libplanet/Store/StoreExtension.cs:28-39 | It throws the same exception exactly when the boundary is null. It returns null exactly when the indexed lookup returns null. Otherwise it returns the hash of the first pair at or below the boundary. |
| `StoreExtension.ThreeMutationHistory` | Libplanet/Store/StoreExtension.cs:53-63 | Take pairs at heights 100, 50 and 10. Boundaries 75, 10, 5, 1000 and 100 give the pairs at 50, 10, none, 100 and 100. The hash-only lookup at 75 gives the hash at 50, and a null boundary throws. |

## Left out

- The `IStore` implementation and how `IterateStateReferences` stores and produces its pairs. The model takes the pairs as an input sequence. The order the store promises (strictly descending by index) is a precondition only of the lemmas that need it.
- Namespace and address. They only choose which sequence the store yields, so they do not appear in the model.
- SHA-256 itself. A `HashDigest` is a 32-byte value that the lookup only copies and never inspects.
- `Block<T>` and its `IAction, new()` constraint. Only `lookupUntil.Index` is modelled.
- Lazy enumeration, and disposing the enumerator on early return. The ghost `iterated` and `consumed` out-parameters model only how far the enumeration gets.
- Exceptions the store raises while it is iterated. They would propagate unchanged, and nothing about them is modelled.
- Concurrency, and whether the store stays consistent while it is read.
- Two `NullReferenceException` cases: a null tuple yielded by the store, read at line 57, and a null `store` receiver, used at line 54. Neither can arise here, because a `StateRef` and a `seq` have no null value.
