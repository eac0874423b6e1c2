/** VerifyKey and its cache (pkg/auth/verifier.go), with the digest, the password hash and the text
    formats it reads as parameters. */
module VerifyCache {
  import opened Bytes
  import opened Wrappers

  const NUL: byte := 0
  const DOLLAR: byte := 36
  /** "argon2id" */
  const ARGON2ID: bytes := [97, 114, 103, 111, 110, 50, 105, 100]
  const ARGON2_VERSION := 19
  const HASH_PARTS := 6
  const MAX_DECODED := 1024
  const TTL := 30_000_000_000
  const MAX_ENTRIES := 10_000

  datatype Cost = Cost(memory: nat, iterations: nat, parallelism: nat)

  /** Sum256, Sscanf of parts 2 and 3, decodeB64, and IDKey. */
  datatype Primitives = Primitives(
    digest: bytes -> bytes,
    version: bytes -> Option<int>,
    cost: bytes -> Option<Cost>,
    decode: bytes -> Option<bytes>,
    idKey: (bytes, bytes, Cost, nat) -> bytes)

  /** What the cache stores under a digest. */
  datatype Entry = Entry(valid: bool, expiresAt: int)

  type Cache = map<bytes, Entry>

  /** The digested text. */
  function Material(key: bytes, hash: bytes): bytes {
    key + [NUL] + hash
  }

  /** The verdict on a well-formed hash, computed afresh; None if the hash is not well-formed. */
  function Computed(p: Primitives, key: bytes, hash: bytes): Option<bool> {
    var parts := Split(hash, DOLLAR);
    if |parts| != HASH_PARTS || parts[1] != ARGON2ID then None
    else if p.version(parts[2]) != Some(ARGON2_VERSION) then None
    else
      match (p.cost(parts[3]), p.decode(parts[4]), p.decode(parts[5]))
      case (Some(cost), Some(salt), Some(stored)) =>
        if 0 < |stored| <= MAX_DECODED then Some(stored == p.idKey(key, salt, cost, |stored|)) else None
      case _ => None
  }

  /** What VerifyKey would return without a cache. */
  function Verdict(p: Primitives, key: bytes, hash: bytes): bool {
    key != [] && hash != [] && Computed(p, key, hash) == Some(true)
  }

  ghost predicate Hit(cache: Cache, d: bytes, now: int) {
    d in cache && now < cache[d].expiresAt
  }

  /** What VerifyKey returns, with this cache before it. */
  ghost function Answer(p: Primitives, cache: Cache, key: bytes, hash: bytes, now: int): bool {
    if key == [] || hash == [] then false
    else
      var d := p.digest(Material(key, hash));
      if Hit(cache, d, now) then cache[d].valid else Computed(p, key, hash) == Some(true)
  }

  /** Entries that are not past their time. */
  ghost function Live(cache: Cache, now: int): Cache {
    map d | d in cache && now <= cache[d].expiresAt :: cache[d]
  }

  ghost function Insert(cache: Cache, d: bytes, valid: bool, now: int): Cache {
    (if |cache| >= MAX_ENTRIES then Live(cache, now) else cache)[d := Entry(valid, now + TTL)]
  }

  /** The cache VerifyKey leaves. */
  ghost function After(p: Primitives, cache: Cache, key: bytes, hash: bytes, now: int): Cache {
    var d := p.digest(Material(key, hash));
    if key == [] || hash == [] || Hit(cache, d, now) then cache
    else match Computed(p, key, hash)
      case Some(valid) => Insert(cache, d, valid, now)
      case None => cache
  }

  class Verifier {
    const prims: Primitives
    var cache: Cache

    constructor (prims: Primitives)
      ensures cache == map[] && this.prims == prims
    {
      this.prims := prims;
      cache := map[];
    }

    method ClearVerifyCache()
      modifies `cache
      ensures cache == map[]
    {
      cache := map[];
    }

    method VerifyKey(key: bytes, encodedHash: bytes, now: int) returns (valid: bool)
      modifies `cache
      ensures valid == Answer(prims, old(cache), key, encodedHash, now)
      ensures cache == After(prims, old(cache), key, encodedHash, now)
      ensures old(cache) == map[] ==> valid == Verdict(prims, key, encodedHash)
    {
      if key == [] || encodedHash == [] {
        return false;
      }
      var cacheKey := prims.digest(Material(key, encodedHash));
      if cacheKey in cache && now < cache[cacheKey].expiresAt {
        return cache[cacheKey].valid;
      }
      var computed := Check(key, encodedHash);
      if computed.None? {
        return false;
      }
      if |cache| >= MAX_ENTRIES {
        PruneExpired(now);
      }
      cache := cache[cacheKey := Entry(computed.value, now + TTL)];
      valid := computed.value;
    }

    /** The slow path up to the comparison. */
    method Check(key: bytes, encodedHash: bytes) returns (computed: Option<bool>)
      ensures computed == Computed(prims, key, encodedHash)
    {
      var parts := Split(encodedHash, DOLLAR);
      if |parts| != HASH_PARTS || parts[1] != ARGON2ID {
        return None;
      }
      var version := prims.version(parts[2]);
      if version.None? || version.value != ARGON2_VERSION {
        return None;
      }
      var cost := prims.cost(parts[3]);
      if cost.None? {
        return None;
      }
      var salt := prims.decode(parts[4]);
      if salt.None? {
        return None;
      }
      var decoded := prims.decode(parts[5]);
      if decoded.None? {
        return None;
      }
      if |decoded.value| > MAX_DECODED || |decoded.value| == 0 {
        return None;
      }
      var calculated := prims.idKey(key, salt.value, cost.value, |decoded.value|);
      computed := Some(decoded.value == calculated);
    }

    method PruneExpired(now: int)
      modifies `cache
      ensures cache == Live(old(cache), now)
      ensures forall d :: d in cache <==> d in old(cache) && !(now > old(cache)[d].expiresAt)
      ensures forall d | d in cache :: cache[d] == old(cache)[d]
    {
      var rest := cache.Keys;
      while rest != {}
        invariant rest <= old(cache).Keys
        invariant forall d | d in old(cache) ::
                    d in cache <==> d in rest || now <= old(cache)[d].expiresAt
        invariant forall d | d in cache :: d in old(cache) && cache[d] == old(cache)[d]
        decreases |rest|
      {
        var d :| d in rest;
        if now > cache[d].expiresAt {
          cache := cache - {d};
        }
        rest := rest - {d};
      }
    }
  }

  // ---------------------------------------------------------------- what a hash text says

  /** The check of a key, from the side of whoever writes the hash: the text is its parts with dollar
      signs between, and the key is right exactly if there are six, the second names argon2id, the
      third version 19, the fourth a cost, and the octets of the sixth, 1 to 1024, are what argon2id
      makes of the key with the salt in the fifth, at that cost and length. */
  lemma VerdictOfParts(p: Primitives, key: bytes, parts: seq<bytes>)
    requires |parts| > 0 && forall part | part in parts :: Ascii("$")[0] !in part
    ensures Verdict(p, key, Join(parts, Ascii("$")[0]))
            <==> && key != [] && |parts| == 6 && parts[1] == Ascii("argon2id")
                 && p.version(parts[2]) == Some(19)
                 && p.cost(parts[3]).Some? && p.decode(parts[4]).Some? && p.decode(parts[5]).Some?
                 && var stored := p.decode(parts[5]).value;
                    && 0 < |stored| <= 1024
                    && stored == p.idKey(key, p.decode(parts[4]).value, p.cost(parts[3]).value, |stored|)
  {
    assert Ascii("$")[0] == DOLLAR;
    SpelledArgon2id();
    JoinSplits(parts, DOLLAR);
    assert Split([], DOLLAR) == [[]];
    hide Split, Join, Ascii;
  }

  lemma SpelledArgon2id()
    ensures Ascii("argon2id") == ARGON2ID
  {
    assert |Ascii("argon2id")| == 8;
  }

  /** Every hash text is of this form. */
  lemma EveryHashHasParts(hash: bytes)
    ensures var parts := Split(hash, Ascii("$")[0]);
            && |parts| > 0 && (forall part | part in parts :: Ascii("$")[0] !in part)
            && Join(parts, Ascii("$")[0]) == hash
  {
    SplitJoins(hash, Ascii("$")[0]);
    SplitParts(hash, Ascii("$")[0]);
  }

  /** Storing an entry drops others only from 10000 entries on, and then just those that are past
      their 30 seconds. */
  lemma InsertMeans(cache: Cache, d: bytes, valid: bool, now: int, other: bytes)
    ensures var cache' := Insert(cache, d, valid, now);
            && d in cache' && cache'[d] == Entry(valid, now + 30_000_000_000)
            && (other != d ==>
                 && (other in cache' <==> other in cache && (|cache| < 10_000 || !(now > cache[other].expiresAt)))
                 && (other in cache' ==> cache'[other] == cache[other]))
  {
  }

  // ---------------------------------------------------------------- one digest for two questions

  /** Text moved across the separator: the longer key is the shorter one, a NUL and `middle`. */
  ghost predicate Moved(key1: bytes, hash1: bytes, key2: bytes, hash2: bytes, middle: bytes) {
    key1 == key2 + [NUL] + middle && hash2 == middle + [NUL] + hash1
  }

  ghost predicate Alike(key1: bytes, hash1: bytes, key2: bytes, hash2: bytes) {
    || (key1 == key2 && hash1 == hash2)
    || (exists middle :: Moved(key1, hash1, key2, hash2, middle))
    || (exists middle :: Moved(key2, hash2, key1, hash1, middle))
  }

  /** Two questions are digested alike if they are the same, or if one key goes on, behind a NUL,
      with the head of the other's hash. */
  lemma MaterialMeaning(key1: bytes, hash1: bytes, key2: bytes, hash2: bytes)
    ensures Material(key1, hash1) == Material(key2, hash2) <==> Alike(key1, hash1, key2, hash2)
  {
    if Material(key1, hash1) == Material(key2, hash2) {
      if |key2| < |key1| {
        Overlap(key1, hash1, key2, hash2);
      } else if |key1| < |key2| {
        Overlap(key2, hash2, key1, hash1);
      } else {
        var m := Material(key1, hash1);
        assert key1 == m[..|key1|] && hash1 == m[|key1| + 1..];
        assert key2 == m[..|key1|] && hash2 == m[|key1| + 1..];
      }
    } else {
      forall middle ensures !Moved(key1, hash1, key2, hash2, middle) {
        MovedDigestsAlike(key1, hash1, key2, hash2, middle);
      }
      forall middle ensures !Moved(key2, hash2, key1, hash1, middle) {
        MovedDigestsAlike(key2, hash2, key1, hash1, middle);
      }
    }
  }

  lemma MovedDigestsAlike(key1: bytes, hash1: bytes, key2: bytes, hash2: bytes, middle: bytes)
    ensures Moved(key1, hash1, key2, hash2, middle) ==> Material(key1, hash1) == Material(key2, hash2)
  {
  }

  lemma Overlap(key1: bytes, hash1: bytes, key2: bytes, hash2: bytes)
    requires Material(key1, hash1) == Material(key2, hash2) && |key2| < |key1|
    ensures exists middle :: Moved(key1, hash1, key2, hash2, middle)
  {
    var m, middle := Material(key1, hash1), key1[|key2| + 1..];
    assert key1 == m[..|key1|] && hash1 == m[|key1| + 1..];
    assert key2 == m[..|key2|] && m[|key2|] == NUL && hash2 == m[|key2| + 1..];
    assert key1 == key2 + [NUL] + middle;
    assert m[|key1|] == NUL;
    assert hash2 == middle + [NUL] + hash1;
    assert Moved(key1, hash1, key2, hash2, middle);
  }

  /** Keys without NUL, or hashes without NUL, keep questions apart. */
  lemma NulFreeApart(key1: bytes, hash1: bytes, key2: bytes, hash2: bytes)
    requires (NUL !in key1 && NUL !in key2) || (NUL !in hash1 && NUL !in hash2)
    ensures Alike(key1, hash1, key2, hash2) <==> key1 == key2 && hash1 == hash2
  {
    forall middle ensures !Moved(key1, hash1, key2, hash2, middle) {
      MovedHasNul(key1, hash1, key2, hash2, middle);
    }
    forall middle ensures !Moved(key2, hash2, key1, hash1, middle) {
      MovedHasNul(key2, hash2, key1, hash1, middle);
    }
  }

  lemma MovedHasNul(key1: bytes, hash1: bytes, key2: bytes, hash2: bytes, middle: bytes)
    ensures Moved(key1, hash1, key2, hash2, middle) ==> NUL in key1 && NUL in hash2
  {
  }

  // ---------------------------------------------------------------- runs

  /** What any number of concurrent calls do to the cache, lock by lock: the entry is written well
      after the lookup that missed, in any order and with any clock reading. */
  datatype Step = Store(key: bytes, hash: bytes, now: int) | Clear

  ghost function Apply(p: Primitives, cache: Cache, s: Step): Cache {
    match s
    case Clear => map[]
    case Store(key, hash, now) =>
      if key == [] || hash == [] then cache
      else match Computed(p, key, hash)
        case Some(valid) => Insert(cache, p.digest(Material(key, hash)), valid, now)
        case None => cache
  }

  ghost function Run(p: Primitives, steps: seq<Step>): Cache {
    if |steps| == 0 then map[] else Apply(p, Run(p, steps[..|steps| - 1]), steps[|steps| - 1])
  }

  /** A call on its own is a lookup and, if it misses, such a step. */
  lemma CallIsStep(p: Primitives, cache: Cache, key: bytes, hash: bytes, now: int)
    ensures After(p, cache, key, hash, now)
            == if Hit(cache, p.digest(Material(key, hash)), now) then cache
               else Apply(p, cache, Store(key, hash, now))
    ensures key != [] && hash != [] && !Hit(cache, p.digest(Material(key, hash)), now) ==>
              Answer(p, cache, key, hash, now) == Verdict(p, key, hash)
  {
  }

  /** The cache after calls that do not overlap. */
  ghost function AfterAll(p: Primitives, calls: seq<Step>): Cache {
    if |calls| == 0 then map[]
    else
      var before := AfterAll(p, calls[..|calls| - 1]);
      match calls[|calls| - 1]
      case Clear => map[]
      case Store(key, hash, now) => After(p, before, key, hash, now)
  }

  /** Calls one after the other are a run of steps too: of those that missed. */
  lemma {:induction false} CallsAreSteps(p: Primitives, calls: seq<Step>) returns (steps: seq<Step>)
    ensures AfterAll(p, calls) == Run(p, steps)
    ensures forall i | 0 <= i < |steps| :: steps[i] in calls
  {
    if |calls| == 0 {
      steps := [];
    } else {
      var before, c := calls[..|calls| - 1], calls[|calls| - 1];
      steps := CallsAreSteps(p, before);
      assert forall s | s in before :: s in calls;
      var cache, more := Run(p, steps), steps + [c];
      assert more[..|steps|] == steps;
      match c
      case Clear =>
        steps := more;
      case Store(key, hash, now) =>
        CallIsStep(p, cache, key, hash, now);
        hide After, Apply, Hit;
        if !Hit(cache, p.digest(Material(key, hash)), now) {
          steps := more;
        }
    }
  }

  /** The entry is the verdict on what this step asked. */
  ghost predicate WrittenBy(p: Primitives, s: Step, d: bytes, e: Entry) {
    && s.Store? && s.key != [] && s.hash != []
    && d == p.digest(Material(s.key, s.hash))
    && Computed(p, s.key, s.hash) == Some(e.valid)
    && e.expiresAt == s.now + TTL
  }

  ghost predicate Written(p: Primitives, steps: seq<Step>, d: bytes, e: Entry) {
    exists i :: 0 <= i < |steps| && WrittenBy(p, steps[i], d, e)
  }

  lemma WrittenStays(p: Primitives, steps: seq<Step>, s: Step, d: bytes, e: Entry)
    requires Written(p, steps, d, e)
    ensures Written(p, steps + [s], d, e)
  {
    var i :| 0 <= i < |steps| && WrittenBy(p, steps[i], d, e);
    assert (steps + [s])[i] == steps[i];
  }

  /** After any steps every entry is the verdict on a question that was asked. */
  lemma {:induction false} EntriesAreVerdicts(p: Primitives, steps: seq<Step>, d: bytes)
    requires d in Run(p, steps)
    ensures Written(p, steps, d, Run(p, steps)[d])
  {
    var before, s := steps[..|steps| - 1], steps[|steps| - 1];
    assert steps == before + [s];
    var e := Run(p, steps)[d];
    if d in Run(p, before) && e == Run(p, before)[d] {
      EntriesAreVerdicts(p, before, d);
      WrittenStays(p, before, s, d, e);
    } else {
      assert WrittenBy(p, steps[|steps| - 1], d, e);
    }
  }

  /** SHA-256 is taken to have no collisions. */
  ghost predicate CollisionFree(digest: bytes -> bytes) {
    forall a, b | digest(a) == digest(b) :: a == b
  }

  /** No stored question is digested like this one without being this one. */
  ghost predicate Apart(steps: seq<Step>, key: bytes, hash: bytes) {
    forall i | 0 <= i < |steps| && steps[i].Store? ::
      Alike(steps[i].key, steps[i].hash, key, hash) ==> steps[i].key == key && steps[i].hash == hash
  }

  /** The cache cannot be seen: whatever was asked before, in whatever interleaving, the answer is
      the uncached one. */
  lemma Invisible(p: Primitives, steps: seq<Step>, key: bytes, hash: bytes, now: int)
    requires CollisionFree(p.digest) && Apart(steps, key, hash)
    ensures Answer(p, Run(p, steps), key, hash, now) == Verdict(p, key, hash)
  {
    var cache, d := Run(p, steps), p.digest(Material(key, hash));
    if key != [] && hash != [] && Hit(cache, d, now) {
      EntriesAreVerdicts(p, steps, d);
      var i :| 0 <= i < |steps| && WrittenBy(p, steps[i], d, cache[d]);
      MaterialMeaning(steps[i].key, steps[i].hash, key, hash);
    }
  }

  ghost predicate NulFreeKeys(steps: seq<Step>) {
    forall i | 0 <= i < |steps| && steps[i].Store? :: 0 !in steps[i].key
  }

  ghost predicate NulFreeHashes(steps: seq<Step>) {
    forall i | 0 <= i < |steps| && steps[i].Store? :: 0 !in steps[i].hash
  }

  lemma InvisibleToNulFree(p: Primitives, steps: seq<Step>, key: bytes, hash: bytes, now: int)
    requires CollisionFree(p.digest)
    requires (NulFreeKeys(steps) && 0 !in key) || (NulFreeHashes(steps) && 0 !in hash)
    ensures Answer(p, Run(p, steps), key, hash, now) == Verdict(p, key, hash)
  {
    forall i | 0 <= i < |steps| && steps[i].Store?
      ensures Alike(steps[i].key, steps[i].hash, key, hash) ==> steps[i].key == key && steps[i].hash == hash
    {
      NulFreeApart(steps[i].key, steps[i].hash, key, hash);
    }
    Invisible(p, steps, key, hash, now);
  }

  /** The question whose entry a lookup of this text finds, if any: the last one stored with the same
      text, unless a clear or a pruning has removed it since. */
  ghost function Governing(p: Primitives, steps: seq<Step>, text: bytes): (r: Option<Step>)
    ensures r.Some? ==> Stores(p, r.value) && Material(r.value.key, r.value.hash) == text
  {
    if |steps| == 0 then None
    else
      var before, s := steps[..|steps| - 1], steps[|steps| - 1];
      var g := Governing(p, before, text);
      if s.Clear? then None
      else if !Stores(p, s) then g
      else if Material(s.key, s.hash) == text then Some(s)
      else if g.Some? && |Run(p, before)| >= MAX_ENTRIES && s.now > g.value.now + TTL then None
      else g
  }

  ghost predicate Stores(p: Primitives, s: Step) {
    s.Store? && s.key != [] && s.hash != [] && Computed(p, s.key, s.hash).Some?
  }

  lemma {:induction false} GoverningEntry(p: Primitives, steps: seq<Step>, text: bytes)
    requires CollisionFree(p.digest)
    ensures var g, cache, d := Governing(p, steps, text), Run(p, steps), p.digest(text);
            if g.None? then d !in cache
            else d in cache && cache[d] == Entry(Verdict(p, g.value.key, g.value.hash), g.value.now + TTL)
  {
    hide Split;
    if |steps| > 0 {
      GoverningEntry(p, steps[..|steps| - 1], text);
    }
  }

  /** After any steps, in any interleaving: the answer is the uncached one exactly if nothing is
      looked up, or no question governs the lookup, or its entry has expired, or the two verdicts are the same. */
  lemma AnswerIsVerdictWhen(p: Primitives, steps: seq<Step>, key: bytes, hash: bytes, now: int)
    requires CollisionFree(p.digest)
    ensures var g := Governing(p, steps, Material(key, hash));
            Answer(p, Run(p, steps), key, hash, now) == Verdict(p, key, hash)
            <==> || key == [] || hash == []
                 || g.None?
                 || now >= g.value.now + TTL
                 || Verdict(p, g.value.key, g.value.hash) == Verdict(p, key, hash)
  {
    GoverningEntry(p, steps, Material(key, hash));
  }

  /** For instance a second question, right behind a first. */
  lemma SecondAnswer(p: Primitives, key1: bytes, hash1: bytes, now1: int, key2: bytes, hash2: bytes, now2: int)
    requires CollisionFree(p.digest)
    requires key1 != [] && key2 != [] && hash1 != [] && hash2 != [] && Computed(p, key1, hash1).Some?
    ensures Answer(p, Run(p, [Store(key1, hash1, now1)]), key2, hash2, now2) == Verdict(p, key2, hash2)
            <==> || !Alike(key1, hash1, key2, hash2)
                 || now2 >= now1 + 30_000_000_000
                 || Verdict(p, key1, hash1) == Verdict(p, key2, hash2)
  {
    MaterialMeaning(key1, hash1, key2, hash2);
    var steps := [Store(key1, hash1, now1)];
    assert steps[..0] == [];
    AnswerIsVerdictWhen(p, steps, key2, hash2, now2);
  }

  // ---------------------------------------------------------------- questions that can be answered wrongly

  /** The text digested for this question splits at some other NUL into a key and a well-formed hash. */
  ghost predicate OtherSplit(p: Primitives, key: bytes, hash: bytes) {
    var text := Material(key, hash);
    exists i :: 0 < i < |text| && SplitsAt(p, text, i) && i != |key|
  }

  ghost predicate SplitsAt(p: Primitives, text: bytes, i: nat)
    requires i < |text|
  {
    text[i] == NUL && Computed(p, text[..i], text[i + 1..]).Some?
  }

  type IdKey = (bytes, bytes, Cost, nat) -> bytes

  /** A password hash returns as many octets as it is asked for. */
  ghost predicate Sized(idKey: IdKey) {
    forall key, salt, cost, n :: |idKey(key, salt, cost, n)| == n
  }

  ghost predicate WrongAfter(p: Primitives, steps: seq<Step>, key: bytes, hash: bytes, now: int) {
    Answer(p, Run(p, steps), key, hash, now) != Verdict(p, key, hash)
  }

  ghost predicate CanBeWrong(p: Primitives, idKey: IdKey, key: bytes, hash: bytes) {
    Sized(idKey) && exists steps, now :: WrongAfter(p.(idKey := idKey), steps, key, hash, now)
  }

  lemma WellFormedWhateverTheKey(p: Primitives, idKey: IdKey, key: bytes, key': bytes, hash: bytes)
    ensures Computed(p.(idKey := idKey), key, hash).Some? <==> Computed(p, key', hash).Some?
  {
  }

  /** The octets a well-formed hash stores. */
  ghost function Stored(p: Primitives, hash: bytes): bytes
    requires Computed(p, [], hash).Some?
    ensures 0 < |Stored(p, hash)| <= MAX_DECODED
  {
    p.decode(Split(hash, DOLLAR)[5]).value
  }

  function Zeros(n: nat): (r: bytes)
    ensures |r| == n
  {
    seq(n, _ => 0)
  }

  /** As many octets, but others. */
  function Different(s: bytes): (r: bytes)
    ensures |r| == |s| && (|s| > 0 ==> r != s)
  {
    assert |s| > 0 ==> (if s[0] == 0 then 1 else 0) != s[0];
    if |s| == 0 then [] else [if s[0] == 0 then 1 else 0] + s[1..]
  }

  /** A password hash that gives `right` for the one key and never `wrong` for another. */
  function Favouring(key: bytes, right: bytes, wrong: bytes): IdKey {
    (k, salt, cost, n) =>
      if k == key then (if n == |right| then right else Zeros(n))
      else if n == |wrong| then Different(wrong) else Zeros(n)
  }

  lemma FavouringDecides(p: Primitives, key1: bytes, hash1: bytes, key2: bytes, hash2: bytes) returns (idKey: IdKey)
    requires Computed(p, [], hash1).Some? && key1 != key2
    ensures Sized(idKey)
    ensures Computed(p.(idKey := idKey), key1, hash1) == Some(true)
    ensures Computed(p.(idKey := idKey), key2, hash2) != Some(true)
  {
    var wrong := if Computed(p, [], hash2).Some? then Stored(p, hash2) else [];
    idKey := Favouring(key1, Stored(p, hash1), wrong);
    WellFormedWhateverTheKey(p, idKey, key2, [], hash2);
    WellFormedWhateverTheKey(p, idKey, key1, [], hash1);
    hide Split;
  }

  /** Whether the cache can ever show on a question can be told from the question: under some
      password hash and some history the answer is wrong exactly if the digested text splits at
      another NUL into a non-empty key and a well-formed hash. */
  lemma CanBeWrongWhen(p: Primitives, key: bytes, hash: bytes)
    requires CollisionFree(p.digest)
    ensures (exists idKey :: CanBeWrong(p, idKey, key, hash))
            <==> key != [] && hash != [] && OtherSplit(p, key, hash)
  {
    var text := Material(key, hash);
    if idKey :| CanBeWrong(p, idKey, key, hash) {
      var q := p.(idKey := idKey);
      var steps, now :| WrongAfter(q, steps, key, hash, now);
      assert key != [] && hash != [];
      AnswerIsVerdictWhen(q, steps, key, hash, now);
      GoverningEntry(q, steps, text);
      var g := Governing(q, steps, text).value;
      SplitIs(p, idKey, g.key, g.hash);
      if |g.key| == |key| {
        SameSplit(g.key, g.hash, key, hash);
        assert false;
      }
      assert SplitsAt(p, text, |g.key|);
    }
    if key != [] && hash != [] && OtherSplit(p, key, hash) {
      var i :| 0 < i < |text| && SplitsAt(p, text, i) && i != |key|;
      var idKey := SplitAnswersWrongly(p, key, hash, i);
    }
  }

  lemma SplitIs(p: Primitives, idKey: IdKey, key: bytes, hash: bytes)
    requires Computed(p.(idKey := idKey), key, hash).Some?
    ensures SplitsAt(p, Material(key, hash), |key|)
  {
    var text := Material(key, hash);
    assert text[..|key|] == key && text[|key| + 1..] == hash;
    WellFormedWhateverTheKey(p, idKey, key, key, hash);
  }

  lemma SameSplit(key1: bytes, hash1: bytes, key2: bytes, hash2: bytes)
    requires Material(key1, hash1) == Material(key2, hash2) && |key1| == |key2|
    ensures key1 == key2 && hash1 == hash2
  {
    var m := Material(key1, hash1);
    assert key1 == m[..|key1|] && hash1 == m[|key1| + 1..];
    assert key2 == m[..|key1|] && hash2 == m[|key1| + 1..];
  }

  lemma SplitAnswersWrongly(p: Primitives, key: bytes, hash: bytes, i: nat) returns (idKey: IdKey)
    requires CollisionFree(p.digest) && key != [] && hash != []
    requires 0 < i < |Material(key, hash)| && SplitsAt(p, Material(key, hash), i) && i != |key|
    ensures CanBeWrong(p, idKey, key, hash)
  {
    var text := Material(key, hash);
    var key1, hash1 := text[..i], text[i + 1..];
    assert text == Material(key1, hash1);
    WellFormedWhateverTheKey(p, p.idKey, [], key1, hash1);
    assert p == p.(idKey := p.idKey);
    idKey := FavouringDecides(p, key1, hash1, key, hash);
    var q, steps := p.(idKey := idKey), [Store(key1, hash1, 0)];
    NoEmptyHash(q, key1);
    assert steps[..0] == [];
    AnswerIsVerdictWhen(q, steps, key, hash, 0);
    assert Governing(q, steps, text) == Some(steps[0]);
    assert WrongAfter(q, steps, key, hash, 0);
  }

  lemma NoEmptyHash(p: Primitives, key: bytes)
    ensures Computed(p, key, []).None?
  {
  }

  /** What comes before the first dollar sign of a hash is not looked at, so text can be moved there
      and the hash stays well-formed: the longer key's verdict then answers for the shorter key. */
  lemma MovedTextAnswers(p: Primitives, key: bytes, middle: bytes, hash: bytes, now1: int, now2: int)
    requires key != [] && hash != [] && DOLLAR !in middle && now2 < now1 + TTL
    requires Computed(p, key + [NUL] + middle, hash).Some?
    ensures Computed(p, key, middle + [NUL] + hash) == Computed(p, key, hash)
    ensures Answer(p, Run(p, [Store(key + [NUL] + middle, hash, now1)]), key, middle + [NUL] + hash, now2)
            == Verdict(p, key + [NUL] + middle, hash)
  {
    var key1, hash2 := key + [NUL] + middle, middle + [NUL] + hash;
    SplitAtFirst(middle + [NUL], hash, DOLLAR);
    assert Moved(key1, hash, key, hash2, middle);
    MaterialMeaning(key1, hash, key, hash2);
    var steps := [Store(key1, hash, now1)];
    assert steps[..0] == [] && Run(p, []) == map[];
    assert Run(p, steps) == map[p.digest(Material(key1, hash)) := Entry(Computed(p, key1, hash).value, now1 + TTL)];
  }

  /** No digesting, and a password hash that returns the key. */
  const ECHO := Primitives(t => t, _ => Some(ARGON2_VERSION), _ => Some(Cost(1, 1, 1)), t => Some(t), (k, _, _, _) => k)

  /** What ECHO stores of a key. */
  function EchoHash(key: bytes): bytes {
    [DOLLAR] + ARGON2ID + [DOLLAR, DOLLAR, DOLLAR, DOLLAR] + key
  }

  /** Such a question: once "A\0" has been accepted against its own hash, "A" is accepted against
      NUL and that hash, which is not its own. */
  lemma WrongAnswer()
    ensures var longer: bytes := [65, 0];
            && CollisionFree(ECHO.digest)
            && Answer(ECHO, Run(ECHO, [Store(longer, EchoHash(longer), 0)]), [65], [NUL] + EchoHash(longer), 0)
            && !Verdict(ECHO, [65], [NUL] + EchoHash(longer))
  {
    var key, longer: bytes := [65], [65, 0];
    var hash := EchoHash(longer);
    HashParts(longer);
    assert Computed(ECHO, longer, hash) == Some(true) && Computed(ECHO, key, hash) == Some(false);
    hide Split, EchoHash;
    assert longer == key + [NUL] + [];
    assert [] + [NUL] + hash == [NUL] + hash;
    MovedTextAnswers(ECHO, key, [], hash, 0, 0);
  }

  lemma HashParts(stored: bytes)
    requires DOLLAR !in stored
    ensures Split(EchoHash(stored), DOLLAR) == [[], ARGON2ID, [], [], [], stored]
  {
    SplitWhole(stored);
    var s1 := [DOLLAR] + stored;
    SplitAtSeparator(stored);
    var s2 := [DOLLAR] + s1;
    SplitAtSeparator(s1);
    var s3 := [DOLLAR] + s2;
    SplitAtSeparator(s2);
    var s4 := [DOLLAR] + s3;
    SplitAtSeparator(s3);
    SplitAtFirst(ARGON2ID, s4, DOLLAR);
    SplitAtSeparator(ARGON2ID + s4);
    assert EchoHash(stored) == [DOLLAR] + (ARGON2ID + s4);
    hide Split;
    assert ARGON2ID + [] == ARGON2ID;
  }

  lemma SplitAtSeparator(s: bytes)
    ensures Split([DOLLAR] + s, DOLLAR) == [[]] + Split(s, DOLLAR)
  {
    assert ([DOLLAR] + s)[1..] == s;
  }

  lemma SplitWhole(s: bytes)
    requires DOLLAR !in s
    ensures Split(s, DOLLAR) == [s]
  {
    SplitAtFirst(s, [], DOLLAR);
    assert s + [] == s;
    assert Split([], DOLLAR) == [[]];
  }

  /** The clock reading of the last step that wrote an entry. */
  ghost function LastWrite(p: Primitives, steps: seq<Step>): Option<int> {
    if |steps| == 0 then None
    else
      var s := steps[|steps| - 1];
      if s.Store? && s.key != [] && s.hash != [] && Computed(p, s.key, s.hash).Some? then Some(s.now)
      else LastWrite(p, steps[..|steps| - 1])
  }

  /** The cache outgrows its bound only with entries that had not expired at the last write. */
  lemma {:induction false} CacheBounded(p: Primitives, steps: seq<Step>)
    ensures var cache, last := Run(p, steps), LastWrite(p, steps);
            |cache| > 10_000 ==> last.Some? && forall d | d in cache :: last.value <= cache[d].expiresAt
  {
    if |steps| > 0 {
      var before, s := steps[..|steps| - 1], steps[|steps| - 1];
      var cache, cache' := Run(p, before), Run(p, steps);
      CacheBounded(p, before);
      if s.Store? && |cache| < MAX_ENTRIES {
        assert cache'.Keys <= cache.Keys + {p.digest(Material(s.key, s.hash))};
        KeysGrow(cache'.Keys, cache.Keys, p.digest(Material(s.key, s.hash)));
      }
    }
  }

  lemma KeysGrow(a: set<bytes>, b: set<bytes>, d: bytes)
    requires a <= b + {d}
    ensures |a| <= |b| + 1
  {
    Fewer(a, b + {d});
  }

  lemma {:induction false} Fewer(a: set<bytes>, b: set<bytes>)
    requires a <= b
    ensures |a| <= |b|
  {
    if a != {} {
      var d :| d in a;
      Fewer(a - {d}, b - {d});
    }
  }
}
