/**
 * Storage-mode selection: the `STORAGE_MODE` setting is normalised, and the
 * first successful lookup builds one repository that every later lookup
 * returns.
 */
module Factory {
  import opened Wrappers
  import MemoryRepository

  /** Python's `str.isspace` on the ASCII range: tab to carriage return, the four separators 0x1C-0x1F, and space. */
  predicate IsSpace(c: char) {
    ('\t' <= c <= '\r') || ('\U{1C}' <= c <= ' ')
  }

  /** Python's `str.lower` on one ASCII character. */
  function LowerChar(c: char): (r: char)
    ensures !('A' <= r <= 'Z')
    ensures !('A' <= c <= 'Z') ==> r == c
    ensures IsSpace(r) == IsSpace(c)
  {
    if 'A' <= c <= 'Z' then (c as int + 32) as char else c
  }

  /** Python's `str.lower` over ASCII: every upper-case letter becomes lower-case, nothing else changes. */
  function Lower(s: string): (r: string)
    ensures |r| == |s|
    ensures forall i :: 0 <= i < |s| ==> r[i] == LowerChar(s[i])
  {
    seq(|s|, i requires 0 <= i < |s| => LowerChar(s[i]))
  }

  /** Python's `str.lstrip()`: the longest suffix of `s` that does not start with whitespace. */
  function StripStart(s: string): (r: string)
    ensures |r| <= |s| && r == s[|s| - |r|..]
    ensures forall k :: 0 <= k < |s| - |r| ==> IsSpace(s[k])
    ensures r == [] || !IsSpace(r[0])
  {
    if s != [] && IsSpace(s[0]) then StripStart(s[1..]) else s
  }

  /** Python's `str.rstrip()`: the longest prefix of `s` that does not end with whitespace. */
  function StripEnd(s: string): (r: string)
    ensures |r| <= |s| && r == s[..|r|]
    ensures forall k :: |r| <= k < |s| ==> IsSpace(s[k])
    ensures r == [] || !IsSpace(r[|r| - 1])
  {
    if s != [] && IsSpace(s[|s| - 1]) then StripEnd(s[..|s| - 1]) else s
  }

  /** Python's `str.strip()`: whitespace removed from both ends. */
  function Strip(s: string): (r: string)
    ensures r == [] || (!IsSpace(r[0]) && !IsSpace(r[|r| - 1]))
  {
    StripEnd(StripStart(s))
  }

  /** Stripping leaves nothing exactly when every character is whitespace. */
  lemma StripBlank(s: string)
    ensures (forall k :: 0 <= k < |s| ==> IsSpace(s[k])) <==> Strip(s) == []
  {
    var t := StripStart(s);
    if Strip(s) == [] {
      assert t == [];
    } else {
      assert Strip(s)[0] == t[0] == s[|s| - |t|];
    }
  }

  /** The mode used when the setting is unset or blank. */
  const DefaultMode: string := "cosmos"

  /**
   * The storage mode for the value `env` of the `STORAGE_MODE` setting:
   * the default when unset, otherwise the value stripped and lower-cased,
   * and the default again when nothing is left. Normalising the default
   * gives the default back (`StorageModeIsGetThenNormalise`), so this is
   * the same as substituting the default first and normalising after.
   */
  function StorageMode(env: Option<string>): (mode: string)
    ensures mode != []
  {
    match env
    case None => DefaultMode
    case Some(v) => Normalise(v)
  }

  /** Strips and lower-cases a set value, falling back to the default when nothing is left. */
  function Normalise(v: string): (mode: string)
    ensures mode != []
  {
    var m := Lower(Strip(v));
    if m == [] then DefaultMode else m
  }

  /** `m` is a possible result of the normalisation: non-empty, no surrounding whitespace, no upper-case letter. */
  predicate Normalised(m: string) {
    && m != []
    && !IsSpace(m[0]) && !IsSpace(m[|m| - 1])
    && forall i :: 0 <= i < |m| ==> !('A' <= m[i] <= 'Z')
  }

  /** Text that neither starts nor ends with whitespace is left alone by `Strip`. */
  lemma StripFixed(s: string)
    requires s == [] || (!IsSpace(s[0]) && !IsSpace(s[|s| - 1]))
    ensures Strip(s) == s
  {
  }

  /** A normalised value is its own storage mode. */
  lemma {:induction false} NormalisedIsFixed(m: string)
    requires Normalised(m)
    ensures Normalise(m) == m
  {
    assert StripStart(m) == m;
    assert StripEnd(m) == m;
    assert Lower(m) == m;
  }

  /** The mode is the setting, or the default when unset, stripped, lower-cased and defaulted when blank. */
  lemma StorageModeIsGetThenNormalise(env: Option<string>)
    ensures StorageMode(env) == Normalise(env.GetOr(DefaultMode))
    ensures env.None? ==> StorageMode(env) == "cosmos"
  {
    if env.None? {
      assert Normalised(DefaultMode);
      NormalisedIsFixed(DefaultMode);
    }
  }

  /**
   * A set value gives its stripped, lower-cased form, or the default when
   * it is blank.
   */
  lemma StorageModeSet(v: string)
    ensures (forall k :: 0 <= k < |v| ==> IsSpace(v[k])) ==> StorageMode(Some(v)) == "cosmos"
    ensures !(forall k :: 0 <= k < |v| ==> IsSpace(v[k])) ==> StorageMode(Some(v)) == Lower(Strip(v))
  {
    StripBlank(v);
  }

  /** Leading whitespace does not change what `StripStart` keeps. */
  lemma {:induction false} StripStartSkips(p: string, x: string)
    requires forall k :: 0 <= k < |p| ==> IsSpace(p[k])
    ensures StripStart(p + x) == StripStart(x)
  {
    if p != [] {
      assert (p + x)[0] == p[0];
      assert (p + x)[1..] == p[1..] + x;
      StripStartSkips(p[1..], x);
    } else {
      assert p + x == x;
    }
  }

  /** Trailing whitespace does not change what `StripEnd` keeps. */
  lemma {:induction false} StripEndSkips(x: string, q: string)
    requires forall k :: 0 <= k < |q| ==> IsSpace(q[k])
    ensures StripEnd(x + q) == StripEnd(x)
  {
    if q != [] {
      assert (x + q)[|x + q| - 1] == q[|q| - 1];
      assert (x + q)[..|x + q| - 1] == x + q[..|q| - 1];
      StripEndSkips(x, q[..|q| - 1]);
    } else {
      assert x + q == x;
    }
  }

  /** `Strip` recovers text that does not start or end with whitespace from any whitespace around it. */
  lemma StripSurrounded(p: string, t: string, q: string)
    requires forall k :: 0 <= k < |p| ==> IsSpace(p[k])
    requires forall k :: 0 <= k < |q| ==> IsSpace(q[k])
    requires t == [] || (!IsSpace(t[0]) && !IsSpace(t[|t| - 1]))
    ensures Strip(p + t + q) == t
  {
    assert p + t + q == p + (t + q);
    StripStartSkips(p, t + q);
    assert t == [] || (t + q)[0] == t[0];
    if t == [] {
      assert t + q == q;
      assert StripStart(q) == [];
    } else {
      assert StripStart(t + q) == t + q;
      StripEndSkips(t, q);
    }
  }

  lemma StorageModeExample()
    ensures StorageMode(Some("  MEMORY ")) == "memory"
  {
    var v := "  MEMORY ";
    assert StorageMode(Some(v)) == Lower(Strip(v)) by {
      StripExample();
    }
    assert Lower(Strip(v)) == "memory" by {
      StripExample();
      LowerExample();
    }
  }

  lemma LowerExample()
    ensures Lower("MEMORY") == "memory"
  {
  }

  lemma StripExample()
    ensures Strip("  MEMORY ") == "MEMORY"
  {
    StripSurrounded("  ", "MEMORY", " ");
    assert "  " + "MEMORY" + " " == "  MEMORY ";
  }

  /** Lower-casing keeps text free of surrounding whitespace and removes every upper-case letter. */
  lemma LowerNormalises(t: string)
    requires t != [] && !IsSpace(t[0]) && !IsSpace(t[|t| - 1])
    ensures Normalised(Lower(t))
  {
    var m := Lower(t);
    assert m[0] == LowerChar(t[0]);
    assert m[|m| - 1] == LowerChar(t[|t| - 1]);
  }

  /** The mode of a set value is normalised. */
  lemma StorageModeOfSetNormalised(v: string)
    ensures Normalised(StorageMode(Some(v)))
  {
    if Strip(v) == [] {
      assert Normalised(DefaultMode);
    } else {
      LowerNormalises(Strip(v));
    }
  }

  /** Every storage mode is normalised. */
  lemma StorageModeNormalised(env: Option<string>)
    ensures Normalised(StorageMode(env))
  {
    match env
    case None => assert Normalised(DefaultMode);
    case Some(v) => StorageModeOfSetNormalised(v);
  }

  /** Normalising a mode that is already normalised returns it unchanged. */
  lemma StorageModeIdempotent(env: Option<string>)
    ensures StorageMode(Some(StorageMode(env))) == StorageMode(env)
  {
    StorageModeNormalised(env);
    NormalisedIsFixed(StorageMode(env));
  }

  /** The repository variants a mode can select. */
  datatype RepoKind = Memory | Cosmos

  /** The raised `ValueError("Unsupported STORAGE_MODE: ...")`, carrying the offending mode. */
  datatype ConfigError = UnsupportedStorageMode(mode: string)

  /** The variant a normalised mode selects, or the configuration error for any other mode. */
  function SelectKind(mode: string): (r: Result<RepoKind, ConfigError>)
    ensures r == Success(Memory) <==> mode == "memory"
    ensures r == Success(Cosmos) <==> mode == "cosmos"
    ensures r.Failure? <==> r == Failure(UnsupportedStorageMode(mode))
  {
    if mode == "memory" then Success(Memory)
    else if mode == "cosmos" then Success(Cosmos)
    else Failure(UnsupportedStorageMode(mode))
  }

  /**
   * A built repository. The document-store variant is only a tag: its
   * client library is not part of this model.
   */
  datatype Repository = InMemory(store: MemoryRepository.InMemoryDeviceRepository) | CosmosStore {
    function Kind(): RepoKind {
      if InMemory? then Memory else Cosmos
    }
  }

  /** The module-level cache `_repo`. */
  class RepositoryFactory {
    var repo: Option<Repository>

    constructor ()
      ensures repo == None
    {
      repo := None;
    }

    /**
     * With nothing cached, builds the variant the mode of `env` selects,
     * caches it and returns it, or fails without caching anything. With a
     * repository cached, returns it and ignores `env`.
     */
    method GetRepository(env: Option<string>) returns (r: Result<Repository, ConfigError>)
      modifies this
      ensures old(repo).Some? ==> r == Success(old(repo).value) && repo == old(repo)
      ensures old(repo).None? && r.Success? ==>
        && Success(r.value.Kind()) == SelectKind(StorageMode(env))
        && repo == Some(r.value)
      ensures old(repo).None? && r.Success? && r.value.InMemory? ==>
        fresh(r.value.store) && r.value.store.Valid() && r.value.store.devices == map[]
      ensures old(repo).None? && r.Failure? ==>
        && r == Failure(UnsupportedStorageMode(StorageMode(env)))
        && SelectKind(StorageMode(env)).Failure?
        && repo == None
    {
      if repo.None? {
        var mode := StorageMode(env);
        if mode == "memory" {
          var store := new MemoryRepository.InMemoryDeviceRepository();
          repo := Some(InMemory(store));
        } else if mode == "cosmos" {
          repo := Some(CosmosStore);
        } else {
          return Failure(UnsupportedStorageMode(mode));
        }
      }
      r := Success(repo.value);
    }
  }
}
