/** The `nginxversion` fact: the class variable `@@nginxversion` that holds
    the raw output of the exec pipeline once it has been run, and the fact's
    resolution, which fills it on the first call only and validates it on
    every call. */
module NginxFact {
  import opened Text
  import opened VersionPattern

  class NginxVersionFact {
    /** `@@nginxversion`: `None` while the variable is not yet defined, and
        `Some(out)` once it holds the exec result `out` (itself `None` when
        the command could not be run). */
    var cache: Option<Option<string>>
    /** How many times the exec pipeline has been run in this process. */
    ghost var spawns: nat

    /** The command has run exactly when the cache is defined, and then once. */
    ghost predicate Valid()
      reads this
    {
      spawns == if cache.None? then 0 else 1
    }

    /** A fresh process: the class variable is undefined and nothing has run. */
    constructor ()
      ensures Valid() && cache == None && spawns == 0
    {
      cache := None;
      spawns := 0;
    }

    /** One resolution of the fact. `exec` is what the exec pipeline would
        return if it were run now; it is used only when the cache is still
        undefined. The cache is written once and never reassigned, it keeps
        the raw output whether or not that output is valid, and the value
        returned is the cached output when it matches the pattern and `nil`
        otherwise. */
    method Resolve(exec: Option<string>) returns (value: Option<string>)
      requires Valid()
      modifies this
      ensures Valid() && spawns <= 1
      ensures old(cache).None? ==> cache == Some(exec) && spawns == 1
      ensures old(cache).Some? ==> cache == old(cache) && spawns == old(spawns)
      ensures value == FactValue(cache.value)
    {
      if cache.None? {
        cache := Some(exec);
        spawns := spawns + 1;
      }
      value := FactValue(cache.value);
    }
  }

  /** Two resolutions in one process: the command runs once, on the first
      call, and the second call returns the same value as the first, computed
      from the first call's output whatever the second one would have seen. */
  method ResolveTwice(first: Option<string>, later: Option<string>)
    returns (r1: Option<string>, r2: Option<string>, ghost runs: nat)
    ensures r1 == r2 == FactValue(first)
    ensures runs == 1
  {
    var fact := new NginxVersionFact();
    r1 := fact.Resolve(first);
    r2 := fact.Resolve(later);
    runs := fact.spawns;
  }
}
