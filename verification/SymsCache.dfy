/** The per-process cache of loaded symbol maps. */
module SymsCache {
  import opened Words

  /** A request: what loading the process would give at that moment (None for a failed load),
      and whether the array of entries could be extended. */
  datatype Request<Syms> = Request(tgid: S32, load: Option<Syms>, grows: bool)

  datatype Entry<Syms> = Entry(syms: Option<Syms>, tgid: S32)

  class Cache<Syms(!new)> {
    var data: seq<Entry<Syms>>

    constructor ()
      ensures data == []
    {
      data := [];
    }

    /** syms_cache__get_syms. */
    method GetSyms(r: Request<Syms>) returns (syms: Option<Syms>)
      modifies this
      ensures data == Extended(old(data), r) && syms == Answer(old(data), r)
    {
      var i := 0;
      while i < |data|
        invariant i <= |data|
        invariant forall j :: 0 <= j < i ==> data[j].tgid != r.tgid
      {
        if data[i].tgid == r.tgid {
          IndexIsFirst(data, r.tgid, i);
          return data[i].syms;
        }
        i := i + 1;
      }
      IndexIsFirst(data, r.tgid, i);
      if !r.grows {
        return None;
      }
      data := data + [Entry(r.load, r.tgid)];
      return r.load;
    }
  }

  function IndexOf<Syms>(data: seq<Entry<Syms>>, tgid: S32): (i: nat)
    ensures i <= |data|
  {
    if data == [] || data[0].tgid == tgid then 0 else 1 + IndexOf(data[1..], tgid)
  }

  lemma {:induction false} IndexIsFirst<Syms>(data: seq<Entry<Syms>>, tgid: S32, i: nat)
    requires i <= |data| && (forall j :: 0 <= j < i ==> data[j].tgid != tgid)
    requires i < |data| ==> data[i].tgid == tgid
    ensures IndexOf(data, tgid) == i
    decreases |data|
  {
    if i > 0 {
      assert forall j :: 0 <= j < |data| - 1 ==> data[1..][j] == data[j + 1];
      IndexIsFirst(data[1..], tgid, i - 1);
    }
  }

  function Answer<Syms>(data: seq<Entry<Syms>>, r: Request<Syms>): Option<Syms> {
    var i := IndexOf(data, r.tgid);
    if i < |data| then data[i].syms else if r.grows then r.load else None
  }

  function Extended<Syms>(data: seq<Entry<Syms>>, r: Request<Syms>): seq<Entry<Syms>> {
    if IndexOf(data, r.tgid) < |data| || !r.grows then data else data + [Entry(r.load, r.tgid)]
  }

  /** The cache after a sequence of requests. */
  function After<Syms>(rs: seq<Request<Syms>>): seq<Entry<Syms>> {
    if rs == [] then [] else Extended(After(rs[..|rs| - 1]), rs[|rs| - 1])
  }

  // ----- The map it refines: the first successful extension wins

  /** The first request for the process whose extension succeeded. */
  function FirstLoad<Syms>(rs: seq<Request<Syms>>, tgid: S32): Option<Option<Syms>> {
    if rs == [] then None
    else
      var before, r := FirstLoad(rs[..|rs| - 1], tgid), rs[|rs| - 1];
      if before.Some? then before else if r.tgid == tgid && r.grows then Some(r.load) else None
  }

  /** The number of times the process was loaded. */
  function Loads<Syms>(rs: seq<Request<Syms>>, tgid: S32): nat {
    if rs == [] then 0
    else
      var front, r := rs[..|rs| - 1], rs[|rs| - 1];
      Loads(front, tgid) + if r.tgid == tgid && r.grows && IndexOf(After(front), tgid) == |After(front)| then 1 else 0
  }

  ghost predicate Distinct<Syms>(data: seq<Entry<Syms>>) {
    forall i, j :: 0 <= i < j < |data| ==> data[i].tgid != data[j].tgid
  }

  ghost predicate Refines<Syms>(data: seq<Entry<Syms>>, rs: seq<Request<Syms>>, tgid: S32) {
    var i := IndexOf(data, tgid);
    && (i < |data| <==> FirstLoad(rs, tgid).Some?)
    && (i < |data| ==> data[i].tgid == tgid && FirstLoad(rs, tgid) == Some(data[i].syms))
    && Loads(rs, tgid) == if i < |data| then 1 else 0
  }

  lemma {:induction false} IndexAppend<Syms>(data: seq<Entry<Syms>>, e: Entry<Syms>, tgid: S32)
    ensures IndexOf(data + [e], tgid) ==
      if IndexOf(data, tgid) < |data| then IndexOf(data, tgid) else if e.tgid == tgid then |data| else |data| + 1
    decreases |data|
  {
    if data == [] {
      assert ([e] + [])[1..] == [];
    } else if data[0].tgid != tgid {
      IndexAppend(data[1..], e, tgid);
      assert (data + [e])[1..] == data[1..] + [e];
    }
  }

  lemma {:induction false} IndexNamesIt<Syms>(data: seq<Entry<Syms>>, tgid: S32)
    ensures IndexOf(data, tgid) < |data| ==> data[IndexOf(data, tgid)].tgid == tgid
    ensures IndexOf(data, tgid) == |data| ==> forall j :: 0 <= j < |data| ==> data[j].tgid != tgid
    decreases |data|
  {
    if data != [] && data[0].tgid != tgid {
      IndexNamesIt(data[1..], tgid);
      assert forall j :: 1 <= j < |data| ==> data[j] == data[1..][j - 1];
    }
  }

  /** At every moment the cache holds, for each process, the result of its first load, which
      is its only load. */
  lemma {:induction false} CacheRefinesFirstLoad<Syms>(rs: seq<Request<Syms>>, tgid: S32)
    ensures Refines(After(rs), rs, tgid)
  {
    if rs != [] {
      var front, r := rs[..|rs| - 1], rs[|rs| - 1];
      CacheRefinesFirstLoad(front, tgid);
      var data := After(front);
      if IndexOf(data, r.tgid) == |data| && r.grows {
        IndexAppend(data, Entry(r.load, r.tgid), tgid);
      }
    }
  }

  lemma {:induction false} CacheStaysDistinct<Syms>(rs: seq<Request<Syms>>)
    ensures Distinct(After(rs))
  {
    if rs != [] {
      CacheStaysDistinct(rs[..|rs| - 1]);
      IndexNamesIt(After(rs[..|rs| - 1]), rs[|rs| - 1].tgid);
    }
  }

  /** The answer to a request: the first load of the process, be it a failed one; the request's
      own load if it is the first; None if the array cannot be extended for a new process. */
  lemma {:induction false} AnswerIsFirstLoad<Syms>(rs: seq<Request<Syms>>, r: Request<Syms>)
    ensures Answer(After(rs), r) == match FirstLoad(rs, r.tgid)
      case Some(load) => load
      case None => if r.grows then r.load else None
  {
    CacheRefinesFirstLoad(rs, r.tgid);
  }

  /** Once a process was loaded, later requests neither load it again nor change its answer. */
  lemma {:induction false} FirstLoadWins<Syms>(rs: seq<Request<Syms>>, more: seq<Request<Syms>>, tgid: S32)
    requires FirstLoad(rs, tgid).Some?
    ensures FirstLoad(rs + more, tgid) == FirstLoad(rs, tgid) && Loads(rs + more, tgid) == 1
    decreases |more|
  {
    CacheRefinesFirstLoad(rs + more, tgid);
    if more == [] {
      assert rs + more == rs;
    } else {
      assert (rs + more)[..|rs + more| - 1] == rs + more[..|more| - 1];
      FirstLoadWins(rs, more[..|more| - 1], tgid);
    }
  }
}
