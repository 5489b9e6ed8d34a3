/**
 * The shard router shared by all five variants: a key goes to shard
 * `key % 3 + 1`, and the shard is addressed by the name `shard_<n>`.
 */
module Router {
  import opened Wrappers

  /** Every variant hard-codes three shards. */
  const ShardCount: nat := 3

  /** The 1-based number of a shard. */
  type ShardId = n: int | 1 <= n <= ShardCount witness 1

  /**
   * `key % 3 + 1`. Python's `%` with a positive divisor takes the sign of the
   * divisor, so it agrees with Dafny's Euclidean `%` on every integer,
   * negative keys included. The result n - 1 is the residue of the key:
   * it lies in [0, 3) and differs from the key by a multiple of three.
   */
  function ShardNumber(key: int): (n: ShardId)
    ensures (key - (n - 1)) % ShardCount == 0
  {
    key % ShardCount + 1
  }

  /** The decimal digit of a number 0..9. */
  function DigitChar(d: int): (c: char)
    requires 0 <= d <= 9
    ensures '0' <= c <= '9' && c as int - '0' as int == d
  {
    ('0' as int + d) as char
  }

  /** The f-string `f'shard_{n}'`; shard numbers are single digits. */
  function ShardName(n: ShardId): (name: string)
    ensures |name| == 7 && name[..6] == "shard_"
    ensures '1' <= name[6] <= '3' && name[6] as int - '0' as int == n
  {
    "shard_" + [DigitChar(n)]
  }

  /** Reads a shard number back from a shard name, if it is one. */
  function ParseShardName(name: string): (r: Option<ShardId>)
    ensures r.Some? ==> |name| == 7 && name[..6] == "shard_"
  {
    if |name| == 7 && name[..6] == "shard_" && '1' <= name[6] <= '3'
    then Some(name[6] as int - '0' as int)
    else None
  }

  /** `get_shard_for_key`: the name of the shard a key is stored in. */
  function ShardForKey(key: int): (name: string)
    ensures name == "shard_1" || name == "shard_2" || name == "shard_3"
    ensures ParseShardName(name) == Some(ShardNumber(key))
  {
    ShardNameRoundTrip(ShardNumber(key));
    ShardName(ShardNumber(key))
  }

  /** Naming a shard and reading the name back gives the shard. */
  lemma ShardNameRoundTrip(n: ShardId)
    ensures ParseShardName(ShardName(n)) == Some(n)
  {
  }

  /** Distinct shards have distinct names, so they address distinct files. */
  lemma ShardNameInjective(m: ShardId, n: ShardId)
    ensures ShardName(m) == ShardName(n) <==> m == n
  {
  }

  /** Two keys share a shard exactly when they are congruent modulo three. */
  lemma SameShardIffCongruent(a: int, b: int)
    ensures ShardNumber(a) == ShardNumber(b) <==> (a - b) % ShardCount == 0
  {
  }

  /** Adding any multiple of three to a key keeps it on the same shard. */
  lemma ShardNumberPeriodic(key: int, q: int)
    ensures ShardNumber(key + ShardCount * q) == ShardNumber(key)
  {
  }

  /** Every shard receives keys: shard n receives key n - 1. */
  lemma EveryShardReachable(n: ShardId)
    ensures ShardNumber(n - 1) == n
  {
  }

  /** The routes the comments of Sharding.py name, and a negative key. */
  lemma ExampleRoutes()
    ensures ShardForKey(1) == "shard_2" && ShardForKey(2) == "shard_3"
    ensures ShardForKey(3) == "shard_1" && ShardForKey(4) == "shard_2"
    ensures ShardNumber(-1) == ShardNumber(2) == 3
  {
  }
}
