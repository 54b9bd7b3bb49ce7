/** The key-value store under the sync protocol: values with a generation that every write
increments, compare-and-swap writes, and the local implementation of them. */
module Backend {
  import opened Bytes
  import opened Wrappers

  datatype Descriptor = Descriptor(hash: Hash, offset: nat, length: nat)

  datatype Manifest = Manifest(version: nat, repo: nat, chunks: seq<Descriptor>, totalSize: nat,
                               lastModified: nat, fileHash: Hash)

  datatype Key = ManifestKey(repo: nat) | ChunkKey(hash: Hash)

  /** Stored bytes; the JSON form of a manifest is taken as the manifest itself. */
  datatype Object = Raw(bytes: seq<Byte>) | Json(manifest: Manifest)

  datatype Precondition = Always | Expect(generation: nat)

  datatype Error = PreconditionFailed | NotFound

  datatype Store = Store(data: map<Key, Object>, gens: map<Key, nat>)

  const EMPTY_STORE := Store(map[], map[])

  /** A key that was never written has generation 0. */
  function Generation(s: Store, key: Key): nat { if key in s.gens then s.gens[key] else 0 }

  function Put(s: Store, key: Key, value: Object, pre: Precondition): Result<(Store, nat), Error> {
    var current := Generation(s, key);
    if pre.Expect? && current != pre.generation then Err(PreconditionFailed)
    else Ok((Store(s.data[key := value], s.gens[key := current + 1]), current + 1))
  }

  function Get(s: Store, key: Key): Result<(Object, nat), Error> {
    if key in s.data then Ok((s.data[key], Generation(s, key))) else Err(NotFound)
  }

  datatype Presence = Absent | Present(generation: nat)

  function Exists(s: Store, key: Key): Presence {
    if key in s.data then Present(Generation(s, key)) else Absent
  }

  function Delete(s: Store, key: Key): Result<Store, Error> {
    if key in s.data then Ok(Store(s.data - {key}, s.gens - {key})) else Err(NotFound)
  }

  /** The local backend: files, and generation sidecar files. */
  class LocalBackend {
    var data: map<Key, Object>
    var gens: map<Key, nat>

    ghost function State(): Store
      reads this
    {
      Store(data, gens)
    }

    constructor ()
      ensures State() == EMPTY_STORE
    {
      data, gens := map[], map[];
    }

    method ReadGeneration(key: Key) returns (g: nat)
      ensures g == Generation(State(), key)
    {
      g := if key in gens then gens[key] else 0;
    }

    method PutObject(key: Key, value: Object, pre: Precondition) returns (r: Result<nat, Error>)
      modifies this
      ensures match Put(old(State()), key, value, pre)
        case Ok((s, g)) => State() == s && r == Ok(g)
        case Err(e) => State() == old(State()) && r == Err(e)
    {
      var current := ReadGeneration(key);
      if pre.Expect? && current != pre.generation {
        return Err(PreconditionFailed);
      }
      data := data[key := value];
      gens := gens[key := current + 1];
      r := Ok(current + 1);
    }

    method GetObject(key: Key) returns (r: Result<(Object, nat), Error>)
      ensures r == Get(State(), key)
    {
      if key !in data { return Err(NotFound); }
      var g := ReadGeneration(key);
      r := Ok((data[key], g));
    }

    method ExistsObject(key: Key) returns (r: Presence)
      ensures r == Exists(State(), key)
    {
      if key !in data { return Absent; }
      var g := ReadGeneration(key);
      r := Present(g);
    }

    method DeleteObject(key: Key) returns (r: Result<(), Error>)
      modifies this
      ensures match Delete(old(State()), key)
        case Ok(s) => State() == s && r == Ok(())
        case Err(e) => State() == old(State()) && r == Err(e)
    {
      if key !in data { return Err(NotFound); }
      data := data - {key};
      gens := gens - {key};
      r := Ok(());
    }
  }

  // ---------------------------------------------------------------- histories

  datatype Request = Write(key: Key, value: Object, pre: Precondition) | Remove(key: Key)

  /** The store after a history of requests, of which refused ones change nothing. */
  function After(s: Store, rs: seq<Request>): Store
    decreases |rs|
  {
    if rs == [] then s else Handle(After(s, rs[..|rs| - 1]), rs[|rs| - 1])
  }

  function Handle(s: Store, r: Request): Store {
    match r
    case Write(key, value, pre) =>
      (match Put(s, key, value, pre)
       case Ok((t, _)) => t
       case Err(_) => s)
    case Remove(key) =>
      (match Delete(s, key)
       case Ok(t) => t
       case Err(_) => s)
  }

  /** Told from the requests alone: how many writes of the key have been accepted since it was
      last removed, and the value of the latest of them. */
  function Accepted(rs: seq<Request>, key: Key): nat
    decreases |rs|
  {
    if rs == [] then 0
    else
      var before, last := Accepted(rs[..|rs| - 1], key), rs[|rs| - 1];
      if last.key != key then before
      else if last.Remove? then 0
      else if IsMet(last.pre, before) then before + 1 else before
  }

  predicate IsMet(pre: Precondition, generation: nat) {
    pre == Always || pre == Expect(generation)
  }

  function Latest(rs: seq<Request>, key: Key): Option<Object>
    decreases |rs|
  {
    if rs == [] then None
    else
      var last := rs[|rs| - 1];
      if last.key != key then Latest(rs[..|rs| - 1], key)
      else if last.Remove? then None
      else if IsMet(last.pre, Accepted(rs[..|rs| - 1], key)) then Some(last.value)
      else Latest(rs[..|rs| - 1], key)
  }

  /** The store remembers exactly that: the generation is the number of accepted writes since the
      last removal, and the data the latest of them, if there is one. */
  lemma {:induction false} StoreIsHistory(rs: seq<Request>, key: Key)
    ensures var s := After(EMPTY_STORE, rs);
      && Generation(s, key) == Accepted(rs, key)
      && (key in s.data <==> Accepted(rs, key) > 0) && (key in s.gens <==> Accepted(rs, key) > 0)
      && Latest(rs, key) == if key in s.data then Some(s.data[key]) else None
    decreases |rs|
  {
    if rs != [] {
      StoreIsHistory(rs[..|rs| - 1], key);
    }
  }

  /** So a read returns the latest accepted value with that number, or finds nothing; and a key
      exists exactly when a read finds it. */
  lemma ReadsSeeHistory(rs: seq<Request>, key: Key)
    ensures var s := After(EMPTY_STORE, rs);
      && (Get(s, key).Ok? <==> Accepted(rs, key) > 0)
      && (Get(s, key).Ok? ==> Latest(rs, key) == Some(Get(s, key).value.0) && Get(s, key).value.1 == Accepted(rs, key))
      && Exists(s, key) == if Get(s, key).Ok? then Present(Accepted(rs, key)) else Absent
  {
    StoreIsHistory(rs, key);
  }

  // ---------------------------------------------------------------- compare and swap

  /** Without a removal the count goes on from where it was. */
  lemma {:induction false} CountGoesOn(before: seq<Request>, after: seq<Request>, key: Key)
    requires Remove(key) !in after
    ensures Accepted(before + after, key) >= Accepted(before, key)
    decreases |after|
  {
    if after == [] {
      assert before + after == before;
    } else {
      var front := after[..|after| - 1];
      assert (before + after)[..|before + after| - 1] == before + front;
      assert forall r <- front :: r in after;
      CountGoesOn(before, front, key);
    }
  }

  /** A removal forgets everything before it. */
  lemma {:induction false} RemovalForgets(before: seq<Request>, key: Key, after: seq<Request>)
    ensures Accepted(before + [Remove(key)] + after, key) == Accepted(after, key)
    decreases |after|
  {
    var all := before + [Remove(key)] + after;
    if after == [] {
      assert all[|all| - 1] == Remove(key);
    } else {
      assert all[..|all| - 1] == before + [Remove(key)] + after[..|after| - 1];
      RemovalForgets(before, key, after[..|after| - 1]);
    }
  }

  /** Compare-and-swap is accepted exactly when that many writes have been since the last removal. */
  lemma SwapIsAccepted(rs: seq<Request>, key: Key, w: Object, g: nat)
    ensures Put(After(EMPTY_STORE, rs), key, w, Expect(g)).Ok? <==> Accepted(rs, key) == g
  {
    StoreIsHistory(rs, key);
  }

  /** Without removals no update is lost: of all writes that expect one generation only one is
      accepted, whatever is written in between. */
  lemma OneWriterPerGeneration(before: seq<Request>, key: Key, v: Object, w: Object, g: nat, between: seq<Request>)
    requires Put(After(EMPTY_STORE, before), key, v, Expect(g)).Ok? && Remove(key) !in between
    ensures Put(After(EMPTY_STORE, before + [Write(key, v, Expect(g))] + between), key, w, Expect(g))
         == Err(PreconditionFailed)
  {
    var first := before + [Write(key, v, Expect(g))];
    SwapIsAccepted(before, key, v, g);
    assert first[..|before|] == before;
    CountGoesOn(first, between, key);
    SwapIsAccepted(first + between, key, w, g);
  }

  /** With a removal it can happen, and exactly then: a generation that was read before the last
      removal is accepted again when just as many writes have been accepted after it. */
  lemma StaleSwapAfterRemoval(before: seq<Request>, key: Key, w: Object, g: nat, after: seq<Request>)
    requires Accepted(before, key) == g
    ensures Put(After(EMPTY_STORE, before + [Remove(key)] + after), key, w, Expect(g)).Ok? <==>
      Accepted(after, key) == g
  {
    RemovalForgets(before, key, after);
    SwapIsAccepted(before + [Remove(key)] + after, key, w, g);
  }
}
