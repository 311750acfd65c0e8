/** The i3 client's version gate `AtLeast(major, minor)`, which consults a
    lazily filled, package-level copy of i3's GET_VERSION reply. */
module I3Version {
  import opened Wrappers
  import opened Ipc

  /** i3's GET_VERSION reply. */
  datatype Version = Version(
    major: int,
    minor: int,
    patch: int,
    variant: string,
    humanReadable: string,
    loadedConfigFileName: string)

  /** The zero value of `Version`: the cache before its first fill. */
  const Unset := Version(0, 0, 0, "", "", "")

  /** What `GetVersion()` returned: the (possibly zero or partially decoded)
      version and its error. */
  datatype Fetch = Fetch(version: Version, err: Option<Error>)

  /** The cache after the call, and the call's error (nil = None). */
  datatype Gated = Gated(cache: Version, err: Option<Error>)

  /** The comparison made once the cache holds a version. */
  function Compare(v: Version, major: int, minor: int): (r: Option<Error>)
    ensures r.Some? ==> r == Some(TooOld(v.major, v.minor, major, minor))
    ensures v.variant != "" ==> r.None?
  {
    if v.variant != "" then None
    else if v.major == major && v.minor >= minor then None
    else Some(TooOld(v.major, v.minor, major, minor))
  }

  /** The rule of `AtLeast(major, minor)` with cache `cached`; `fetched` is what
      `GetVersion()` would return, consulted only while the cache is unset.
      Go assigns the cache from `GetVersion()` before looking at its
      error, so a failed fetch still overwrites the cache. */
  function Gate(cached: Version, fetched: Fetch, major: int, minor: int): (r: Gated)
    ensures major == 0 ==> r == Gated(cached, Some(MajorIsZero))
    ensures major != 0 && cached.major != 0 ==> r.cache == cached
    ensures major != 0 && cached.major == 0 ==> r.cache == fetched.version
    ensures major != 0 && cached.major == 0 && fetched.err.Some? ==> r.err == fetched.err
    ensures r.err.None? ==>
      major != 0 && (r.cache.variant != "" || (r.cache.major == major && r.cache.minor >= minor))
    ensures major != 0 && (cached.major != 0 || fetched.err.None?) ==>
      (r.err.None? <==> r.cache.variant != "" || (r.cache.major == major && r.cache.minor >= minor))
  {
    if major == 0 then Gated(cached, Some(MajorIsZero))
    else
      var v := if cached.major == 0 then fetched.version else cached;
      if cached.major == 0 && fetched.err.Some? then Gated(v, fetched.err)
      else Gated(v, Compare(v, major, minor))
  }

  /** Once the cache holds a version, the fetch is never consulted. */
  lemma FilledCacheIgnoresFetch(cached: Version, f1: Fetch, f2: Fetch, major: int, minor: int)
    requires cached.major != 0
    ensures Gate(cached, f1, major, minor) == Gate(cached, f2, major, minor)
  {
  }

  /** Without a variant, a differing major fails even when it is newer. */
  lemma OtherMajorFails(cached: Version, fetched: Fetch, major: int, minor: int)
    requires major != 0 && cached.major != 0 && cached.variant == ""
    requires cached.major != major
    ensures Gate(cached, fetched, major, minor).err
      == Some(TooOld(cached.major, cached.minor, major, minor))
  {
  }

  /** A non-empty variant passes every nonzero major once fetched. */
  lemma VariantPasses(cached: Version, fetched: Fetch, major: int, minor: int)
    requires major != 0 && cached.major != 0 && cached.variant != ""
    ensures Gate(cached, fetched, major, minor).err.None?
  {
  }

  /** Passing a gate passes every lower minor of the same major. */
  lemma GateMonotone(cached: Version, fetched: Fetch, major: int, minor: int, lower: int)
    requires lower <= minor
    requires Gate(cached, fetched, major, minor).err.None?
    ensures Gate(cached, fetched, major, lower).err.None?
  {
  }

  /** The package-level `version` variable. */
  class VersionCache {
    var version: Version

    constructor ()
      ensures version == Unset
    {
      version := Unset;
    }

    /** `AtLeast(major, minor)`; `fetched` stands for the `GetVersion()`
        round trip, which runs only when the cached major is 0. */
    method AtLeast(major: int, minor: int, fetched: Fetch) returns (err: Option<Error>)
      modifies this
      ensures Gated(version, err) == Gate(old(version), fetched, major, minor)
    {
      if major == 0 {
        return Some(MajorIsZero);
      }
      if version.major == 0 {
        version := fetched.version;
        if fetched.err.Some? {
          return fetched.err;
        }
      }
      if version.variant != "" {
        return None;
      }
      if version.major == major && version.minor >= minor {
        return None;
      }
      return Some(TooOld(version.major, version.minor, major, minor));
    }
  }
}
