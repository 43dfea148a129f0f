/** The algorithm registry and KDF parameter selection: the constant table
    `SUPPORTED_ALGORITHM_PARAMS`, the option listing, `craft_kdf_params` and
    the (algorithm, tier) pairs the benchmark enumerates. */
module KdfRegistry {
  import opened Wrappers
  import opened Bytes
  import opened Dict
  import opened Errors
  import opened Nacl

  /** A hardness tier's (opslimit, memlimit) pair. */
  datatype Cost = Cost(ops: nat, mem: nat)

  /** One KDF family's constants as libsodium defines them (`SALTBYTES`,
      `OPSLIMIT_*`, `MEMLIMIT_*`); their values are not modelled. */
  datatype Limits = Limits(saltBytes: nat, min: Cost, interactive: Cost, moderate: Cost, sensitive: Cost)

  /** The libsodium the process runs against. `argon2i` is None when the
      build lacks it, which the source detects by the AttributeError raised
      while reading `pwhash.argon2i`'s attributes. */
  datatype Sodium = Sodium(scrypt: Limits, argon2i: Option<Limits>)

  /** A registry entry: the dict `{"kdf": ..., "saltbytes": ..., "hardness": ...}`,
      where the degraded argon2i entry has only `"hardness": {}`. */
  datatype AlgorithmEntry = AlgorithmEntry(kdf: Option<KdfId>, saltBytes: Option<nat>, hardness: Dict<string, Cost>)

  type Registry = Dict<string, AlgorithmEntry>

  /** The 4-tuple `(kdf, salt, ops, mem)`. */
  datatype KdfParams = KdfParams(kdf: KdfId, salt: bytes, ops: nat, mem: nat)

  const DefaultAlgorithm: string := "scrypt"
  const DefaultHardness: string := "moderate"

  /** The four named tiers of a KDF family, in source order. */
  function HardnessTiers(l: Limits): Dict<string, Cost> {
    [("min", l.min), ("interactive", l.interactive), ("moderate", l.moderate), ("sensitive", l.sensitive)]
  }

  /** `get_argon2i_params()`: the full entry, or only an empty tier table
      when the library lacks argon2i. */
  function Argon2iParams(lib: Sodium): (entry: AlgorithmEntry)
    ensures entry.kdf.Some? <==> lib.argon2i.Some?
    ensures entry.hardness == [] <==> lib.argon2i.None?
  {
    match lib.argon2i
    case Some(l) => AlgorithmEntry(Some(Argon2iKdf), Some(l.saltBytes), HardnessTiers(l))
    case None => AlgorithmEntry(None, None, [])
  }

  /** `SUPPORTED_ALGORITHM_PARAMS`. */
  function SupportedAlgorithmParams(lib: Sodium): (reg: Registry)
    ensures Keys(reg) == ["argon2i", "scrypt"]
  {
    [("argon2i", Argon2iParams(lib)),
     ("scrypt", AlgorithmEntry(Some(ScryptSalsa208Sha256Kdf), Some(lib.scrypt.saltBytes), HardnessTiers(lib.scrypt)))]
  }

  /** What the source relies on of the table: keys are distinct at both
      levels, and an entry with tiers also has a KDF and a salt size. */
  ghost predicate WellFormed(reg: Registry) {
    && DistinctKeys(reg)
    && forall i :: 0 <= i < |reg| ==>
         && DistinctKeys(reg[i].1.hardness)
         && (reg[i].1.hardness != [] ==> reg[i].1.kdf.Some? && reg[i].1.saltBytes.Some?)
  }

  lemma SupportedAlgorithmParamsWellFormed(lib: Sodium)
    ensures WellFormed(SupportedAlgorithmParams(lib))
  {
  }

  /** The option list of a registry: every algorithm, with its tier names. */
  function OptionsOf(reg: Registry): (opts: Options)
    ensures |opts| == |reg|
    ensures forall i :: 0 <= i < |reg| ==> opts[i].0 == reg[i].0
    ensures DistinctKeys(reg) ==> forall a :: a in Keys(reg) ==>
      (a, Keys(Get(reg, a).value.hardness)) in opts
  {
    seq(|reg|, i requires 0 <= i < |reg| => (reg[i].0, Keys(reg[i].1.hardness)))
  }

  /** `tuple(get_supported_algorithm_options())`. */
  function SupportedAlgorithmOptions(lib: Sodium): (opts: Options)
    ensures |opts| == 2 && opts[0].0 == "argon2i" && opts[1].0 == "scrypt"
  {
    OptionsOf(SupportedAlgorithmParams(lib))
  }

  /** `craft_kdf_params(algorithm, hardness)`. The lookups happen in source
      order: the algorithm, its `"kdf"`, its `"saltbytes"`, then (after the
      salt is drawn) the tier; the first miss is the `InvalidUsage`. */
  function CraftKdfParams(lib: Sodium, algorithm: string, hardness: string, e: Entropy): (r: Result<(KdfParams, Entropy), Error>)
    ensures r.Failure? ==> r.error.InvalidUsage? && r.error.options == SupportedAlgorithmOptions(lib)
    ensures r.Success? ==> (r.value.0.salt, r.value.1) == Random(e, |r.value.0.salt|)
  {
    var options := SupportedAlgorithmOptions(lib);
    match Get(SupportedAlgorithmParams(lib), algorithm)
    case None => Failure(InvalidUsage(algorithm, options))
    case Some(algo) =>
      match (algo.kdf, algo.saltBytes)
      case (None, _) => Failure(InvalidUsage("kdf", options))
      case (_, None) => Failure(InvalidUsage("saltbytes", options))
      case (Some(kdf), Some(saltBytes)) =>
        var (salt, e') := Random(e, saltBytes);
        match Get(algo.hardness, hardness)
        case None => Failure(InvalidUsage(hardness, options))
        case Some(cost) => Success((KdfParams(kdf, salt, cost.ops, cost.mem), e'))
  }

  /** The pairs `product([name], entry["hardness"].keys())`, flattened over
      the registry in order. */
  function Combinations(reg: Registry): (pairs: seq<(string, string)>)
    ensures forall i :: 0 <= i < |pairs| ==> pairs[i].0 in Keys(reg)
  {
    if reg == [] then []
    else seq(|reg[0].1.hardness|, i requires 0 <= i < |reg[0].1.hardness| => (reg[0].0, reg[0].1.hardness[i].0))
         + Combinations(reg[1..])
  }

  /** `algorithm_combinations` inside `benchmark_algorithms`. */
  function AlgorithmCombinations(lib: Sodium): (pairs: seq<(string, string)>)
    ensures forall i :: 0 <= i < |pairs| ==> pairs[i].0 == "argon2i" || pairs[i].0 == "scrypt"
  {
    Combinations(SupportedAlgorithmParams(lib))
  }

  /** The tier names every available family has, in source order. */
  const TierNames: seq<string> := ["min", "interactive", "moderate", "sensitive"]

  /** The listing, spelled out: argon2i first (with no tiers when the
      library lacks it), then scrypt. */
  lemma SupportedAlgorithmOptionsListing(lib: Sodium)
    ensures SupportedAlgorithmOptions(lib)
      == [("argon2i", if lib.argon2i.Some? then TierNames else []), ("scrypt", TierNames)]
  {
    TierKeys(lib.scrypt);
    if lib.argon2i.Some? {
      TierKeys(lib.argon2i.value);
    }
  }

  lemma TierKeys(l: Limits)
    ensures Keys(HardnessTiers(l)) == TierNames
  {
  }

  /** The benchmark enumerates a pair exactly when the registry has that
      algorithm and that tier under it. */
  lemma {:induction false} CombinationsMembership(reg: Registry, a: string, t: string)
    requires DistinctKeys(reg)
    ensures (a, t) in Combinations(reg) <==> Get(reg, a).Some? && t in Keys(Get(reg, a).value.hardness)
  {
    if reg != [] {
      var tail := reg[1..];
      assert DistinctKeys(tail) by {
        forall i, j | 0 <= i < j < |tail| ensures tail[i].0 != tail[j].0 {
          assert tail[i] == reg[i + 1] && tail[j] == reg[j + 1];
        }
      }
      CombinationsMembership(tail, a, t);
      var heads := seq(|reg[0].1.hardness|, i requires 0 <= i < |reg[0].1.hardness| => (reg[0].0, reg[0].1.hardness[i].0));
      assert Combinations(reg) == heads + Combinations(tail);
      var ks := Keys(reg[0].1.hardness);
      assert forall i :: 0 <= i < |heads| ==> heads[i] == (reg[0].0, ks[i]);
      assert (a, t) in heads <==> a == reg[0].0 && t in ks by {
        if a == reg[0].0 && t in ks {
          var i :| 0 <= i < |ks| && ks[i] == t;
          assert heads[i] == (a, t);
        }
      }
      if a == reg[0].0 {
        assert a !in Keys(tail) by {
          forall i | 0 <= i < |tail| ensures Keys(tail)[i] != a {
            assert tail[i] == reg[i + 1];
          }
        }
      }
    }
  }

  /** `craft_kdf_params` accepts exactly the pairs the benchmark enumerates. */
  lemma CraftKdfParamsAccepts(lib: Sodium, algorithm: string, hardness: string, e: Entropy)
    ensures CraftKdfParams(lib, algorithm, hardness, e).Success? <==> (algorithm, hardness) in AlgorithmCombinations(lib)
  {
    var reg := SupportedAlgorithmParams(lib);
    SupportedAlgorithmParamsWellFormed(lib);
    CombinationsMembership(reg, algorithm, hardness);
    match Get(reg, algorithm)
    case None =>
    case Some(algo) =>
      if algo.hardness != [] {
        var i :| 0 <= i < |reg| && reg[i] == (algorithm, algo);
      }
  }

  /** For a registered algorithm and tier: the registered KDF, a fresh salt of
      exactly the algorithm's salt size, and exactly the tier's cost pair. */
  lemma CraftKdfParamsRegistered(lib: Sodium, algorithm: string, entry: AlgorithmEntry, hardness: string, cost: Cost, e: Entropy)
    requires (algorithm, entry) in SupportedAlgorithmParams(lib)
    requires (hardness, cost) in entry.hardness
    ensures var r := CraftKdfParams(lib, algorithm, hardness, e);
      && r.Success?
      && entry.kdf.Some? && entry.saltBytes.Some?
      && r.value.0.kdf == entry.kdf.value
      && |r.value.0.salt| == entry.saltBytes.value
      && r.value.0.salt == Random(e, entry.saltBytes.value).0
      && r.value.0.ops == cost.ops && r.value.0.mem == cost.mem
      && r.value.1 == Random(e, entry.saltBytes.value).1
  {
    var reg := SupportedAlgorithmParams(lib);
    SupportedAlgorithmParamsWellFormed(lib);
    var i :| 0 <= i < |reg| && reg[i] == (algorithm, entry);
    assert Get(reg, algorithm) == Some(entry);
    var j :| 0 <= j < |entry.hardness| && entry.hardness[j] == (hardness, cost);
    assert Get(entry.hardness, hardness) == Some(cost);
  }

  /** An unknown algorithm name is reported as the missing key. */
  lemma UnknownAlgorithm(lib: Sodium, algorithm: string, hardness: string, e: Entropy)
    requires algorithm !in Keys(SupportedAlgorithmParams(lib))
    ensures CraftKdfParams(lib, algorithm, hardness, e) == Failure(InvalidUsage(algorithm, SupportedAlgorithmOptions(lib)))
  {
  }

  /** An unknown tier of an available algorithm is reported as the missing key. */
  lemma UnknownTier(lib: Sodium, algorithm: string, hardness: string, e: Entropy)
    requires algorithm == "scrypt" || (algorithm == "argon2i" && lib.argon2i.Some?)
    requires hardness !in TierNames
    ensures CraftKdfParams(lib, algorithm, hardness, e) == Failure(InvalidUsage(hardness, SupportedAlgorithmOptions(lib)))
  {
    var reg := SupportedAlgorithmParams(lib);
    var l := if algorithm == "scrypt" then lib.scrypt else lib.argon2i.value;
    TierKeys(l);
    assert Get(HardnessTiers(l), hardness).None?;
    if algorithm == "scrypt" {
      assert Get(reg, algorithm) == Some(reg[1].1);
    } else {
      assert Get(reg, algorithm) == Some(reg[0].1);
    }
  }

  /** Without argon2i in the library, every argon2i request fails at the
      `"kdf"` lookup, the listing shows argon2i with no tiers, and the
      benchmark enumerates no argon2i pair. */
  lemma Argon2iUnavailable(lib: Sodium, hardness: string, e: Entropy)
    requires lib.argon2i.None?
    ensures CraftKdfParams(lib, "argon2i", hardness, e) == Failure(InvalidUsage("kdf", SupportedAlgorithmOptions(lib)))
    ensures ("argon2i", []) in SupportedAlgorithmOptions(lib)
    ensures ("argon2i", hardness) !in AlgorithmCombinations(lib)
  {
    SupportedAlgorithmParamsWellFormed(lib);
    CombinationsMembership(SupportedAlgorithmParams(lib), "argon2i", hardness);
    SupportedAlgorithmOptionsListing(lib);
  }

  /** The benchmark's pairs, spelled out: every tier of argon2i (none when the
      library lacks it), then every tier of scrypt, each in source order. */
  lemma AlgorithmCombinationsListing(lib: Sodium)
    ensures AlgorithmCombinations(lib)
      == (if lib.argon2i.Some? then
            [("argon2i", "min"), ("argon2i", "interactive"), ("argon2i", "moderate"), ("argon2i", "sensitive")]
          else [])
         + [("scrypt", "min"), ("scrypt", "interactive"), ("scrypt", "moderate"), ("scrypt", "sensitive")]
  {
    var reg := SupportedAlgorithmParams(lib);
    assert reg[1..][1..] == [];
    assert Combinations(reg[1..]) == [("scrypt", "min"), ("scrypt", "interactive"), ("scrypt", "moderate"), ("scrypt", "sensitive")] + [];
  }

  /** `craft_kdf_params()` with its defaults: scrypt at the moderate tier. */
  lemma DefaultKdfParams(lib: Sodium, e: Entropy)
    ensures var (salt, e') := Random(e, lib.scrypt.saltBytes);
      CraftKdfParams(lib, DefaultAlgorithm, DefaultHardness, e)
        == Success((KdfParams(ScryptSalsa208Sha256Kdf, salt, lib.scrypt.moderate.ops, lib.scrypt.moderate.mem), e'))
  {
    var reg := SupportedAlgorithmParams(lib);
    assert reg[1] == (DefaultAlgorithm, reg[1].1);
    assert HardnessTiers(lib.scrypt)[2] == (DefaultHardness, lib.scrypt.moderate);
    CraftKdfParamsRegistered(lib, DefaultAlgorithm, reg[1].1, DefaultHardness, lib.scrypt.moderate, e);
  }
}
