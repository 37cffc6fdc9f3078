/** The key-value store: one server's local storage, and the write that is passed on to
    all servers in order. */
module KeyValueStore {
  import opened Remote

  /** A JSON value in its textual form; `Nil` is null, which is also what a missing key reads as. */
  datatype Value = Nil | Json(text: string)

  type Contents = map<string, map<string, Value>>

  function Stored(c: Contents, store: string, key: string, val: Value): Contents
  {
    c[store := (if store in c then c[store] else map[])[key := val]]
  }

  function Read(c: Contents, store: string, key: string): Value
  {
    if store in c && key in c[store] then c[store][key] else Nil
  }

  /** A write is read back, and no other key of any store is touched. */
  lemma ReadAfterPut(c: Contents, store: string, key: string, val: Value, store': string, key': string)
    ensures Read(Stored(c, store, key, val), store', key')
      == if store' == store && key' == key then val else Read(c, store', key')
  {}

  class InmemoryStorage {
    var store: Contents

    constructor ()
      ensures store == map[]
    {
      store := map[];
    }

    method GetAll(name: string) returns (st: map<string, Value>)
      ensures st == if name in store then store[name] else map[]
      ensures forall key :: Read(store, name, key) == if key in st then st[key] else Nil
    {
      if name !in store { return map[]; }
      return store[name];
    }

    method Get(name: string, key: string) returns (val: Value)
      ensures val == Read(store, name, key)
    {
      if name !in store { return Nil; }
      val := if key in store[name] then store[name][key] else Nil;
    }

    method Put(name: string, key: string, val: Value)
      modifies this
      ensures store == Stored(old(store), name, key, val)
    {
      if name !in store {
        store := store[name := map[]];
      }
      var st := store[name];
      store := store[name := st[key := val]];
    }
  }

  class GrpcStorage {
    const clients: seq<InmemoryStorage>

    constructor (clients: seq<InmemoryStorage>)
      ensures this.clients == clients
    {
      this.clients := clients;
    }

    /** Writes to the clients in order and stops at the first call that fails. */
    method Put(store: string, key: string, val: Value, rpcs: seq<Rpc>) returns (ok: bool, reached: nat)
      requires |rpcs| == |clients|
      requires forall i, j | 0 <= i < j < |clients| :: clients[i] != clients[j]
      modifies clients
      ensures ok <==> forall i | 0 <= i < |rpcs| :: rpcs[i] == Done
      ensures if ok then reached == |clients| else reached < |clients| && rpcs[reached] != Done
      ensures forall i | 0 <= i < |clients| ::
        clients[i].store == Written(old(clients[i].store), store, key, val, i < reached || (i == reached && rpcs[i] == LostReply))
    {
      reached := 0;
      while reached < |clients|
        invariant reached <= |clients|
        invariant forall i | 0 <= i < reached :: rpcs[i] == Done
        invariant forall i | 0 <= i < |clients| ::
          clients[i].store == Written(old(clients[i].store), store, key, val, i < reached)
      {
        if rpcs[reached] == Done || rpcs[reached] == LostReply {
          clients[reached].Put(store, key, val);
        }
        if rpcs[reached] != Done { return false, reached; }
        reached := reached + 1;
      }
      return true, reached;
    }
  }

  function Written(c: Contents, store: string, key: string, val: Value, written: bool): Contents
  {
    if written then Stored(c, store, key, val) else c
  }
}
