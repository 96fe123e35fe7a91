/** The factor cache of prime_factor.py: a single file holding a pickled
    dictionary from integers to their factor lists. The file is modelled by
    what loading it yields, not by its bytes. */
module FactorCache {

  datatype Option<T> = None | Some(value: T)

  datatype Result<T, E> = Success(value: T) | Failure(error: E)

  /** What the cache file holds: no file at all, a zero-length file, bytes
      that do not unpickle to a dictionary, or a readable dictionary. */
  datatype CacheFile =
    | Absent
    | Empty
    | Corrupt
    | Valid(entries: map<int, seq<int>>)

  /** The only way persist_factors fails: when loading raises and the file
      exists, the local `factors_dict` is never bound and the assignment to
      it raises UnboundLocalError. */
  datatype PersistError = UnboundFactorsDict

  /** previously_found_factors on a file state: the stored list, or None
      (the `False` of prime_factor.py) for a missing key, a missing file, or a file
      that cannot be loaded. */
  function Lookup(f: CacheFile, k: int): Option<seq<int>> {
    match f
    case Valid(m) => if k in m then Some(m[k]) else None
    case _ => None
  }

  /** persist_factors on a file state: load the whole dictionary (a missing
      file is created and read as an empty one), set the entry for k, and
      write the whole dictionary back. Yields the new file state. */
  function Persisted(f: CacheFile, k: int, fs: seq<int>): (r: Result<CacheFile, PersistError>)
    ensures r.Success? <==> f.Absent? || f.Valid?
    ensures r.Failure? ==> r.error == UnboundFactorsDict
    ensures r.Success? ==> r.value.Valid? && Lookup(r.value, k) == Some(fs)
    ensures r.Success? ==> forall j :: j != k ==> Lookup(r.value, j) == Lookup(f, j)
  {
    match f
    case Absent => Success(Valid(map[k := fs]))
    case Valid(m) => Success(Valid(m[k := fs]))
    case _ => Failure(UnboundFactorsDict)
  }

  /** A lookup never fails loudly: an absent, zero-length or unreadable
      file, and a key that was never stored, all read as "not found". */
  lemma LookupMisses(f: CacheFile, k: int)
    ensures Lookup(f, k).None? <==> !f.Valid? || k !in f.entries
  {
  }

  /** Persisting from every state that persist_factors accepts, then
      looking the key up, gives back the persisted list; the stored state is
      then a dictionary whose keys are the old ones plus k. */
  lemma PersistThenLookup(f: CacheFile, k: int, fs: seq<int>)
    requires f.Absent? || f.Valid?
    ensures Persisted(f, k, fs).Success?
    ensures Lookup(Persisted(f, k, fs).value, k) == Some(fs)
    ensures Persisted(f, k, fs).value.entries.Keys == (if f.Valid? then f.entries.Keys else {}) + {k}
  {
  }

  /** Persisting two keys in a row keeps the first one: writing a new key
      to a dictionary never loses an unrelated entry. */
  lemma PersistKeepsEarlierEntries(f: CacheFile, k1: int, fs1: seq<int>, k2: int, fs2: seq<int>)
    requires f.Absent? || f.Valid?
    requires k1 != k2
    ensures Persisted(f, k1, fs1).Success?
    ensures Persisted(Persisted(f, k1, fs1).value, k2, fs2).Success?
    ensures Lookup(Persisted(Persisted(f, k1, fs1).value, k2, fs2).value, k1) == Some(fs1)
  {
  }

  /** A file that exists but cannot be loaded makes persist_factors raise
      and leaves the file as it was. */
  lemma PersistOnUnreadableFileFails(f: CacheFile, k: int, fs: seq<int>)
    requires f.Empty? || f.Corrupt?
    ensures Persisted(f, k, fs) == Failure(UnboundFactorsDict)
  {
  }

  /** The cache file, as the state that persist_factors overwrites and
      previously_found_factors reads. */
  class FactorFile {
    var state: CacheFile

    constructor (initial: CacheFile)
      ensures state == initial
    {
      state := initial;
    }

    /** previously_found_factors: reads the file and never changes it. */
    method PreviouslyFoundFactors(k: int) returns (r: Option<seq<int>>)
      ensures r.Some? <==> state.Valid? && k in state.entries
      ensures r.Some? ==> r.value == state.entries[k]
    {
      match state {
        case Valid(m) =>
          if k in m {
            r := Some(m[k]);
          } else {
            r := None;
          }
        case _ =>
          r := None;
      }
    }

    /** persist_factors: a read-modify-write of the whole dictionary. On
        failure nothing has been written. */
    method PersistFactors(k: int, fs: seq<int>) returns (r: Result<(), PersistError>)
      modifies this
      ensures r.Success? <==> old(state).Absent? || old(state).Valid?
      ensures r.Success? ==> state == Persisted(old(state), k, fs).value
      ensures r.Success? ==> Lookup(state, k) == Some(fs)
      ensures r.Failure? ==> r.error == UnboundFactorsDict && state == old(state)
    {
      var factorsDict: map<int, seq<int>>;
      match state {
        case Absent =>
          factorsDict := map[];
        case Valid(m) =>
          factorsDict := m;
        case _ =>
          return Failure(UnboundFactorsDict);
      }
      factorsDict := factorsDict[k := fs];
      state := Valid(factorsDict);
      r := Success(());
    }
  }
}
