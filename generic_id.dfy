/** `GenericId`: a structure that memoizes its representation hash. The cache is filled on first
    use and never invalidated. */
module GenericIds {
  import opened Cells

  datatype Option<T> = None | Some(value: T)

  /** A structure with state S, its cache of the hash H, and the (fallible) representation hash
      of a state, which is opaque here. */
  class Identified<S, H> {
    var state: S
    var idCache: Option<H>
    const hash: S -> Result<H>

    constructor (state: S, hash: S -> Result<H>)
      ensures this.state == state && idCache == None && this.hash == hash
    {
      this.state := state;
      idCache := None;
      this.hash := hash;
    }

    /** `calc_id`: the cached hash when there is one, else the hash of the state. */
    function CalcId(): (r: Result<H>)
      reads this
      ensures idCache.Some? ==> r == Ok(idCache.value)
      ensures idCache.None? ==> r == hash(state)
    {
      match idCache
      case Some(id) => Ok(id)
      case None => hash(state)
    }

    /** `id`: what `calc_id` returns; a hash computed here is stored, a failure is not. */
    method Id() returns (r: Result<H>)
      modifies this`idCache
      ensures r == old(CalcId())
      ensures old(idCache).Some? ==> idCache == old(idCache)
      ensures old(idCache).None? ==> idCache == (if r.Ok? then Some(r.value) else None)
    {
      if idCache.Some? {
        return Ok(idCache.value);
      }
      var h := hash(state);
      if h.Err? {
        return Err(h.error);
      }
      idCache := Some(h.value);
      r := Ok(h.value);
    }

    /** `prepare_id`: hashes only when nothing is cached. */
    method PrepareId() returns (r: Outcome)
      modifies this`idCache
      ensures old(idCache).Some? ==> r == Pass && idCache == old(idCache)
      ensures old(idCache).None? && hash(state).Ok? ==> r == Pass && idCache == Some(hash(state).value)
      ensures old(idCache).None? && hash(state).Err? ==> r == Fail(hash(state).error) && idCache == None
    {
      if idCache.None? {
        var h := hash(state);
        if h.Err? {
          return Fail(h.error);
        }
        idCache := Some(h.value);
      }
      r := Pass;
    }

    /** A change of the structure through its other accessors: the cache is left as it is. */
    method SetState(s: S)
      modifies this`state
      ensures state == s
    {
      state := s;
    }
  }

  /** Once an id is cached it is what `id` returns, even after the state changes to one whose
      hash differs. */
  method StaleIdAfterChange<S, H>(s0: S, s1: S, hash: S -> Result<H>) returns (first: Result<H>, second: Result<H>)
    ensures first == hash(s0)
    ensures first.Ok? ==> second == first
    ensures first.Err? ==> second == hash(s1)
  {
    var x := new Identified(s0, hash);
    first := x.Id();
    x.SetState(s1);
    second := x.Id();
  }

  /** After `prepare_id` succeeds, `id` and `calc_id` agree with the hash prepared, and the
      cache no longer consults the hash. */
  method PreparedIdAgrees<S, H>(s0: S, s1: S, hash: S -> Result<H>) returns (prepared: Outcome, calculated: Result<H>, id: Result<H>)
    ensures prepared.Pass? <==> hash(s0).Ok?
    ensures prepared.Pass? ==> calculated == hash(s0) && id == hash(s0)
    ensures prepared.Fail? ==> calculated == hash(s1) && id == hash(s1)
  {
    var x := new Identified(s0, hash);
    prepared := x.PrepareId();
    x.SetState(s1);
    calculated := x.CalcId();
    id := x.Id();
  }
}
