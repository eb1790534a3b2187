/** The state-reference lookup of a Libplanet store: given the (hash, index) pairs the
    store yields for one namespace and address, most recent first, find the pair of
    the latest block at or below a boundary block. */
module StoreExtension {
  import opened Wrappers

  /** A C# `long`: the type of a block index and of every index the store yields. */
  newtype Int64 = x: int | -0x8000_0000_0000_0000 <= x < 0x8000_0000_0000_0000

  /** The 32 bytes of a SHA-256 digest. */
  type Sha256Bytes = s: seq<bv8> | |s| == 32 witness seq(32, _ => 0)

  /** A SHA-256 block hash; the lookup only copies it and never looks inside. */
  datatype HashDigest = HashDigest(bytes: Sha256Bytes)

  /** One pair yielded by the store's IterateStateReferences: the hash and the index of
      a block whose actions mutated the address's state. */
  datatype StateRef = StateRef(hash: HashDigest, index: Int64)

  /** The boundary block `lookupUntil`; the lookup reads nothing of it but its index. */
  datatype Block = Block(index: Int64)

  /** The exception the lookup throws; `paramName` is the offending parameter's name. */
  datatype Error = ArgumentNullException(paramName: string)

  /** Position `k` holds the first pair, in iteration order, at or below `bound`. */
  ghost predicate IsFirstMatch(refs: seq<StateRef>, bound: Int64, k: int)
  {
    0 <= k < |refs| && refs[k].index <= bound &&
    forall j :: 0 <= j < k ==> refs[j].index > bound
  }

  /** The order the store is expected to yield: most recent block first, no index twice. */
  ghost predicate StrictlyDescending(refs: seq<StateRef>)
  {
    forall i, j :: 0 <= i < j < |refs| ==> refs[i].index > refs[j].index
  }

  /** The front-to-back scan: the first pair whose index is at or below `bound`. */
  function FirstAtOrBelow(refs: seq<StateRef>, bound: Int64): (r: Option<StateRef>)
    ensures r.Some? ==> r.value in refs && r.value.index <= bound
    ensures r.None? <==> forall i :: 0 <= i < |refs| ==> refs[i].index > bound
  {
    if refs == [] then None
    else if refs[0].index <= bound then Some(refs[0])
    else FirstAtOrBelow(refs[1..], bound)
  }

  /** Every pair before the first qualifying one is passed over, and that one is returned. */
  lemma {:induction false} FirstMatchIsResult(refs: seq<StateRef>, bound: Int64, k: int)
    requires IsFirstMatch(refs, bound, k)
    ensures FirstAtOrBelow(refs, bound) == Some(refs[k])
  {
    if k > 0 {
      assert refs[0].index > bound;
      assert IsFirstMatch(refs[1..], bound, k - 1) by {
        forall j | 0 <= j < k - 1 ensures refs[1..][j].index > bound {
          assert refs[1..][j] == refs[j + 1];
        }
      }
      FirstMatchIsResult(refs[1..], bound, k - 1);
    }
  }

  /** A returned pair sits at the first qualifying position of the sequence. */
  lemma {:induction false} ResultIsFirstMatch(refs: seq<StateRef>, bound: Int64)
    ensures FirstAtOrBelow(refs, bound).Some? ==>
      exists k :: IsFirstMatch(refs, bound, k) && refs[k] == FirstAtOrBelow(refs, bound).value
  {
    if refs != [] && refs[0].index > bound && FirstAtOrBelow(refs[1..], bound).Some? {
      ResultIsFirstMatch(refs[1..], bound);
      var k :| IsFirstMatch(refs[1..], bound, k) && refs[1..][k] == FirstAtOrBelow(refs[1..], bound).value;
      assert IsFirstMatch(refs, bound, k + 1) by {
        forall j | 0 <= j < k + 1 ensures refs[j].index > bound {
          if j > 0 { assert refs[j] == refs[1..][j - 1]; }
        }
      }
    } else if refs != [] && refs[0].index <= bound {
      assert IsFirstMatch(refs, bound, 0);
    }
  }

  /** The scan short-circuits: what follows a qualifying pair is never consulted, and a
      prefix without one is passed over entirely. */
  lemma {:induction false} ScanOfConcatenation(refs: seq<StateRef>, rest: seq<StateRef>, bound: Int64)
    ensures FirstAtOrBelow(refs + rest, bound) ==
      if FirstAtOrBelow(refs, bound).Some? then FirstAtOrBelow(refs, bound) else FirstAtOrBelow(rest, bound)
  {
    if refs == [] {
      assert refs + rest == rest;
    } else if refs[0].index > bound {
      assert (refs + rest)[1..] == refs[1..] + rest;
      ScanOfConcatenation(refs[1..], rest, bound);
    }
  }

  /** When the store keeps its order, the first match is the latest block at or below
      the bound: no qualifying pair has a larger index, and none other has the same. */
  lemma {:induction false} DescendingFirstMatchIsLatest(refs: seq<StateRef>, bound: Int64)
    requires StrictlyDescending(refs)
    ensures FirstAtOrBelow(refs, bound).Some? ==>
      forall i :: 0 <= i < |refs| && refs[i].index <= bound ==>
        refs[i].index <= FirstAtOrBelow(refs, bound).value.index &&
        (refs[i].index == FirstAtOrBelow(refs, bound).value.index ==> refs[i] == FirstAtOrBelow(refs, bound).value)
  {
    ResultIsFirstMatch(refs, bound);
  }

  /** The bound is inclusive: a pair exactly at the boundary's index qualifies, and in a
      descending sequence it is the one returned. */
  lemma InclusiveBound(refs: seq<StateRef>, bound: Int64, k: int)
    requires 0 <= k < |refs| && refs[k].index == bound
    ensures FirstAtOrBelow(refs, bound).Some?
    ensures StrictlyDescending(refs) ==> FirstAtOrBelow(refs, bound) == Some(refs[k])
  {
    if StrictlyDescending(refs) {
      DescendingFirstMatchIsLatest(refs, bound);
    }
  }

  /** What LookupStateReferenceWithIndex returns or throws, as a value. */
  function LookupWithIndex(refs: seq<StateRef>, lookupUntil: Option<Block>): (r: Result<Option<StateRef>, Error>)
    ensures r.Failure? <==> lookupUntil.None?
    ensures r.Failure? ==> r.error == ArgumentNullException("lookupUntil")
    ensures r.Success? && r.value.Some? ==>
      r.value.value in refs && r.value.value.index <= lookupUntil.value.index
    ensures r == Success(None) <==>
      lookupUntil.Some? && forall i :: 0 <= i < |refs| ==> refs[i].index > lookupUntil.value.index
  {
    match lookupUntil
    case None => Failure(ArgumentNullException("lookupUntil"))
    case Some(block) => Success(FirstAtOrBelow(refs, block.index))
  }

  /** The lookup as the store runs it: refuse a null boundary before touching the store,
      then walk the store's pairs and return a copy of the first at or below the
      boundary's index, or null once they run out. The ghost `iterated` says whether the
      store's enumeration was started and `consumed` how many pairs it handed out. */
  method LookupStateReferenceWithIndex(refs: seq<StateRef>, lookupUntil: Option<Block>)
    returns (r: Result<Option<StateRef>, Error>, ghost iterated: bool, ghost consumed: nat)
    ensures r == LookupWithIndex(refs, lookupUntil)
    ensures iterated <==> lookupUntil.Some?
    ensures consumed <= |refs| && (!iterated ==> consumed == 0)
    ensures r.Success? && r.value.Some? ==>
      consumed > 0 && IsFirstMatch(refs, lookupUntil.value.index, consumed - 1) &&
      r.value.value == refs[consumed - 1]
    ensures r == Success(None) ==> consumed == |refs|
  {
    iterated, consumed := false, 0;
    if lookupUntil.None? {
      r := Failure(ArgumentNullException("lookupUntil"));
      return;
    }
    var until := lookupUntil.value;
    iterated := true;
    for i := 0 to |refs|
      invariant consumed == i
      invariant forall j :: 0 <= j < i ==> refs[j].index > until.index
    {
      var pair := refs[i];
      consumed := consumed + 1;
      if pair.index <= until.index {
        FirstMatchIsResult(refs, until.index, i);
        r := Success(Some(StateRef(pair.hash, pair.index)));
        return;
      }
    }
    r := Success(None);
  }

  /** LookupStateReference: the hash of the pair the lookup finds, null when it finds
      none, and the same exception when the boundary is null. */
  function LookupStateReference(refs: seq<StateRef>, lookupUntil: Option<Block>): (r: Result<Option<HashDigest>, Error>)
    ensures r.Failure? <==> lookupUntil.None?
    ensures r.Failure? ==> r.error == ArgumentNullException("lookupUntil")
    ensures r == Success(None) <==> LookupWithIndex(refs, lookupUntil) == Success(None)
    ensures r.Success? && r.value.Some? ==>
      exists k :: IsFirstMatch(refs, lookupUntil.value.index, k) && refs[k].hash == r.value.value
  {
    match LookupWithIndex(refs, lookupUntil)
    case Failure(e) => Failure(e)
    case Success(sr) =>
      if sr.Some? then
        ResultIsFirstMatch(refs, lookupUntil.value.index);
        Success(Some(sr.value.hash))
      else Success(None)
  }

  /** A store history of three mutations at heights 100, 50 and 10, looked up at several
      boundaries. */
  lemma ThreeMutationHistory(h1: HashDigest, h2: HashDigest, h3: HashDigest)
    ensures var s := [StateRef(h3, 100), StateRef(h2, 50), StateRef(h1, 10)];
      LookupWithIndex(s, Some(Block(75))) == Success(Some(StateRef(h2, 50))) &&
      LookupWithIndex(s, Some(Block(10))) == Success(Some(StateRef(h1, 10))) &&
      LookupWithIndex(s, Some(Block(5))) == Success(None) &&
      LookupWithIndex(s, Some(Block(1000))) == Success(Some(StateRef(h3, 100))) &&
      LookupWithIndex(s, Some(Block(100))) == Success(Some(StateRef(h3, 100))) &&
      LookupStateReference(s, Some(Block(75))) == Success(Some(h2)) &&
      LookupStateReference(s, None) == Failure(ArgumentNullException("lookupUntil"))
  {
    var s := [StateRef(h3, 100), StateRef(h2, 50), StateRef(h1, 10)];
    FirstMatchIsResult(s, 75, 1);
    FirstMatchIsResult(s, 10, 2);
  }
}
