/**
 * An in-memory model of the part of the Redis keyspace the server uses:
 * string values with an optional expiry, read and written against an
 * explicit clock (milliseconds), and the four commands SET with a time to
 * live, GET, EXISTS and INCR. A failure of the connection is an input
 * (`fault`) of each command.
 */
module Redis {
  import opened Wrappers

  /** INCR works on signed 64-bit integers. */
  const MaxInt64: int := 0x7FFF_FFFF_FFFF_FFFF

  /** A string value. A string that spells a 64-bit integer, as a counter
      does, is held as that integer (`Int`); every other string is `Text`. */
  datatype Value = Text(s: string) | Int(n: int)

  /** A key's value and the instant from which the key is gone, if it has a
      time to live. */
  datatype Entry = Entry(value: Value, expireAt: Option<nat>)

  type Keyspace = map<string, Entry>

  predicate Live(e: Entry, now: nat) {
    e.expireAt.None? || now < e.expireAt.value
  }

  /** What the store holds under `key` at `now`; an expired key is absent. */
  function Lookup(ks: Keyspace, key: string, now: nat): Option<Value> {
    if key in ks && Live(ks[key], now) then Some(ks[key].value) else None
  }

  /** The decimal digits of a natural number, most significant first. */
  function Digits(n: nat): (r: string)
    ensures |r| >= 1 && forall i | 0 <= i < |r| :: '0' <= r[i] <= '9'
    decreases n
  {
    if n < 10 then [('0' as int + n) as char] else Digits(n / 10) + [('0' as int + n % 10) as char]
  }

  /** The string a GET returns for a value. */
  function Render(v: Value): string {
    match v
    case Text(s) => s
    case Int(n) => if n < 0 then "-" + Digits(-n) else Digits(n)
  }

  datatype StoreError = Unreachable | NotAnInteger | Overflow

  /** The three outcomes of a GET: a value, the Nil reply of a missing key, or an error. */
  datatype Reply = Ok(s: string) | Nil | Err(e: StoreError)

  /** GET key. */
  function Get(ks: Keyspace, key: string, now: nat, fault: bool): (r: Reply)
    ensures r.Nil? <==> !fault && Lookup(ks, key, now).None?
    ensures r.Ok? <==> !fault && Lookup(ks, key, now).Some?
    ensures r.Ok? ==> r.s == Render(Lookup(ks, key, now).value)
  {
    if fault then Err(Unreachable)
    else match Lookup(ks, key, now)
      case None => Nil
      case Some(v) => Ok(Render(v))
  }

  /** EXISTS key: the number of the given keys that are present. */
  function Exists(ks: Keyspace, key: string, now: nat, fault: bool): (r: Result<nat, StoreError>)
    ensures r.Success? <==> !fault
    ensures r.Success? ==> (r.value == 0 <==> Lookup(ks, key, now).None?)
  {
    if fault then Failure(Unreachable) else if Lookup(ks, key, now).Some? then Success(1) else Success(0)
  }

  /** The reply of GET key read as a 64-bit integer, 0 when there is none:
      the value of a counter, or 0 for a missing key or anything else. */
  function CounterOrZero(ks: Keyspace, key: string, now: nat): (n: int)
    ensures Lookup(ks, key, now).None? ==> n == 0
    ensures Lookup(ks, key, now).Some? && Lookup(ks, key, now).value.Int? ==> n == Lookup(ks, key, now).value.n
    ensures Lookup(ks, key, now).Some? && Lookup(ks, key, now).value.Text? ==> n == 0
  {
    match Lookup(ks, key, now)
    case Some(Int(n)) => n
    case _ => 0
  }

  /** SET key value with an expiry: the key holds the text until `expireAt`,
      whatever it held before; no other key changes. */
  function SetWithExpiry(ks: Keyspace, key: string, s: string, expireAt: nat): (r: Keyspace)
    ensures forall t: nat :: Lookup(r, key, t) == if t < expireAt then Some(Text(s)) else None
    ensures forall k, t: nat | k != key :: Lookup(r, k, t) == Lookup(ks, k, t)
  {
    ks[key := Entry(Text(s), Some(expireAt))]
  }

  /** INCR key: a missing key becomes 1 with no expiry, a counter goes up by
      one and keeps its expiry; text and a counter at the 64-bit maximum are
      errors. No other key changes. */
  function Increment(ks: Keyspace, key: string, now: nat): (r: Result<(Keyspace, int), StoreError>)
    ensures r.Failure? <==>
      (Lookup(ks, key, now).Some? && (Lookup(ks, key, now).value.Text? || Lookup(ks, key, now).value.n >= MaxInt64))
    ensures r.Failure? ==> (r.error == NotAnInteger <==> Lookup(ks, key, now).value.Text?)
    ensures r.Failure? ==> (r.error == Overflow <==> Lookup(ks, key, now).value.Int?)
    ensures r.Success? ==> r.value.1 == CounterOrZero(ks, key, now) + 1
    ensures r.Success? ==> Lookup(r.value.0, key, now) == Some(Int(r.value.1))
    ensures r.Success? ==> forall k, t: nat | k != key :: Lookup(r.value.0, k, t) == Lookup(ks, k, t)
    ensures r.Success? ==>
      (key in r.value.0 && r.value.0[key].expireAt == if Lookup(ks, key, now).Some? then ks[key].expireAt else None)
  {
    match Lookup(ks, key, now)
    case None => Success((ks[key := Entry(Int(1), None)], 1))
    case Some(Text(_)) => Failure(NotAnInteger)
    case Some(Int(n)) =>
      if n >= MaxInt64 then Failure(Overflow)
      else Success((ks[key := Entry(Int(n + 1), ks[key].expireAt)], n + 1))
  }

  /** `n` INCRs of one key in a row, as the store serialises them; the first
      failure ends the run. */
  function IncrementTimes(ks: Keyspace, key: string, now: nat, n: nat): Result<Keyspace, StoreError>
    decreases n
  {
    if n == 0 then Success(ks)
    else match IncrementTimes(ks, key, now, n - 1)
      case Failure(e) => Failure(e)
      case Success(mid) =>
        match Increment(mid, key, now)
        case Failure(e) => Failure(e)
        case Success((after, _)) => Success(after)
  }

  /** No increment is lost: `n` INCRs on a counter (or a missing key) that
      stay within the 64-bit range all succeed and raise it by exactly `n`,
      and no other key changes. */
  lemma {:induction false} EveryIncrementCounts(ks: Keyspace, key: string, now: nat, n: nat)
    requires Lookup(ks, key, now).None? || Lookup(ks, key, now).value.Int?
    requires CounterOrZero(ks, key, now) + n <= MaxInt64
    ensures IncrementTimes(ks, key, now, n).Success?
    ensures Lookup(IncrementTimes(ks, key, now, n).value, key, now) ==
      if n == 0 then Lookup(ks, key, now) else Some(Int(CounterOrZero(ks, key, now) + n))
    ensures forall k, t: nat | k != key :: Lookup(IncrementTimes(ks, key, now, n).value, k, t) == Lookup(ks, k, t)
    decreases n
  {
    if n > 0 {
      EveryIncrementCounts(ks, key, now, n - 1);
    }
  }

  /** The Redis server the program talks to. */
  class Store {
    var data: Keyspace

    constructor ()
      ensures data == map[]
    {
      data := map[];
    }

    /** SET key value EX ttl, issued at `now`. */
    method Set(key: string, s: string, ttl: nat, now: nat, fault: bool) returns (err: Option<StoreError>)
      modifies this
      ensures err == if fault then Some(Unreachable) else None
      ensures data == if fault then old(data) else SetWithExpiry(old(data), key, s, now + ttl)
    {
      if fault {
        return Some(Unreachable);
      }
      data := SetWithExpiry(data, key, s, now + ttl);
      return None;
    }

    /** INCR key, issued at `now`. */
    method Incr(key: string, now: nat, fault: bool) returns (r: Result<int, StoreError>)
      modifies this
      ensures fault ==> r == Failure(Unreachable) && data == old(data)
      ensures !fault ==> match Increment(old(data), key, now)
        case Success((after, n)) => r == Success(n) && data == after
        case Failure(e) => r == Failure(e) && data == old(data)
    {
      if fault {
        return Failure(Unreachable);
      }
      match Increment(data, key, now)
      case Success((after, n)) =>
        data := after;
        r := Success(n);
      case Failure(e) =>
        r := Failure(e);
    }
  }
}
