/**
 * Brvr_Cache_Abstract (Cache/Abstract.php) and Brvr_Cache_Object
 * (Cache/Object.php): a map from handles to values with an expiry time,
 * kept in the object, in front of an optional deeper cache. The deeper
 * cache is another `Brvr_Cache_Interface` whose behaviour is not part of
 * this model: what its `set` and `get` return is passed in, and so is the
 * current time.
 */
module Cache {
  import opened Wrappers
  import opened Decimal
  import opened PhpValue

  /** `Brvr_Cache_Interface::CONFIG_SET_RES_STRICT`. */
  const ConfigSetResStrict := "Strict set result"
  /** `Brvr_Cache_Interface::CONFIG_DEFAULT_EXPIRE_TIME`. */
  const ConfigDefaultExpireTime := "Default Expire"
  /** Five minutes, the default time to live. */
  const DefaultExpire := 300

  /** `isset($config[$key])`: present and not null. */
  predicate IsSet(config: seq<(string, Value)>, key: string) {
    Lookup(config, key) != Null
  }

  /**
   * The configuration `setConfig` stores: the given array, with an expire
   * time of 300 and a non-strict set result added where they are not set.
   */
  function WithDefaults(params: seq<(string, Value)>): (config: seq<(string, Value)>)
    ensures config != []
    ensures Lookup(config, ConfigDefaultExpireTime) ==
      if IsSet(params, ConfigDefaultExpireTime) then Lookup(params, ConfigDefaultExpireTime) else Int(DefaultExpire)
    ensures Lookup(config, ConfigSetResStrict) ==
      if IsSet(params, ConfigSetResStrict) then Lookup(params, ConfigSetResStrict) else Bool(false)
    ensures forall k :: k != ConfigDefaultExpireTime && k != ConfigSetResStrict ==>
      (HasKey(config, k) <==> HasKey(params, k)) && Lookup(config, k) == Lookup(params, k)
  {
    var withExpire := if IsSet(params, ConfigDefaultExpireTime) then params
      else Assign(params, ConfigDefaultExpireTime, Int(DefaultExpire));
    var result := if IsSet(withExpire, ConfigSetResStrict) then withExpire
      else Assign(withExpire, ConfigSetResStrict, Bool(false));
    assert HasKey(result, ConfigSetResStrict) by {
      if IsSet(withExpire, ConfigSetResStrict) {
        assert Lookup(result, ConfigSetResStrict) != Null;
      }
    }
    result
  }

  /** A variable as `isSerializable` inspects it. */
  datatype Item =
    | Resource
    | Instance(serializable: bool)
    | Array(values: seq<Item>)
    | Scalar

  /**
   * `isSerializable($var)`: false for a resource and for an object that does
   * not implement `Serializable`; an array is serializable when all its
   * values are.
   */
  function IsSerializable(v: Item): bool
    decreases v, 1
  {
    match v
    case Resource => false
    case Instance(serializable) => serializable
    case Array(values) => AllSerializable(values)
    case Scalar => true
  }

  /** The `foreach` of `isSerializable`: stop at the first value that is not serializable. */
  function AllSerializable(values: seq<Item>): bool
    decreases values, 0
  {
    values == [] || (IsSerializable(values[0]) && AllSerializable(values[1..]))
  }

  /** What PHP cannot serialize: a resource, or an object that does not implement `Serializable`. */
  predicate Unserializable(v: Item) {
    v.Resource? || v == Instance(false)
  }

  /** The non-array values found in `v`, through arrays at any depth. */
  function Leaves(v: Item): seq<Item>
    decreases v, 1
  {
    match v
    case Array(values) => AllLeaves(values)
    case _ => [v]
  }

  function AllLeaves(values: seq<Item>): seq<Item>
    decreases values, 0
  {
    if values == [] then [] else Leaves(values[0]) + AllLeaves(values[1..])
  }

  /** `isSerializable` holds exactly when nothing unserializable occurs anywhere in the variable. */
  lemma {:induction false} IsSerializableLeaves(v: Item)
    ensures IsSerializable(v) <==> forall x :: x in Leaves(v) ==> !Unserializable(x)
    decreases v, 1
  {
    match v
    case Array(values) => AllSerializableLeaves(values);
    case _ =>
      assert Leaves(v) == [v];
      assert v in Leaves(v);
  }

  lemma {:induction false} AllSerializableLeaves(values: seq<Item>)
    ensures AllSerializable(values) <==> forall x :: x in AllLeaves(values) ==> !Unserializable(x)
    decreases values, 0
  {
    if values != [] {
      IsSerializableLeaves(values[0]);
      AllSerializableLeaves(values[1..]);
    }
  }

  /**
   * An expiry time as `time() + $timeToLive` leaves it: an integer, or a
   * float when the added value is a numeric string with a point or an
   * exponent, held exactly as `mantissa / 10^scale`.
   */
  datatype Expiry = IntTime(at: int) | FloatTime(mantissa: int, scale: nat)

  /** `$now + $n` for a number read from a string. */
  function AddNumber(now: int, n: Number): (r: Expiry)
    ensures n.IntNumber? ==> r == IntTime(now + n.i)
    ensures n.FloatNumber? ==> r.FloatTime?
  {
    match n
    case IntNumber(i) => IntTime(now + i)
    case FloatNumber(negative, digits, scale) =>
      var sign := if negative then -1 else 1;
      if scale >= 0 then FloatTime(now + sign * digits * Pow10(scale), 0)
      else FloatTime(now * Pow10(-scale) + sign * digits, -scale)
  }

  /**
   * The addition in `getExpireTime`: null adds 0, a boolean 0 or 1, an
   * integer its value, a string the number it starts with (an integer or a
   * float); a string with no number in front, an array or an object is a
   * type error.
   */
  function AddSeconds(now: int, seconds: Value): (r: Result<Expiry>)
    ensures seconds.Int? ==> r == Success(IntTime(now + seconds.i))
    ensures seconds.Null? ==> r == Success(IntTime(now))
    ensures seconds.Str? && NumberPrefix(seconds.s).Some? ==>
      r == Success(AddNumber(now, NumberPrefix(seconds.s).value.0))
    ensures r.Failure? <==> !(seconds.Null? || seconds.Bool? || seconds.Int? || (seconds.Str? && NumberPrefix(seconds.s).Some?))
  {
    match seconds
    case Null => Success(IntTime(now))
    case Bool(b) => Success(IntTime(if b then now + 1 else now))
    case Int(i) => Success(IntTime(now + i))
    case Str(s) =>
      (match NumberPrefix(s)
       case Some((n, _)) => Success(AddNumber(now, n))
       case None => Failure("Unsupported operand types"))
    case _ => Failure("Unsupported operand types")
  }

  /**
   * `getExpireTime($timeToLive)`: 0 never expires; another integer counts
   * from now; anything else uses the configured default.
   */
  function ExpireTime(timeToLive: Value, now: int, defaultExpire: Value): (r: Result<Expiry>)
    ensures timeToLive == Int(0) ==> r == Success(IntTime(0))
    ensures timeToLive.Int? && timeToLive.i != 0 ==> r == Success(IntTime(now + timeToLive.i))
    ensures !timeToLive.Int? ==> r == AddSeconds(now, defaultExpire)
  {
    if timeToLive == Int(0) then Success(IntTime(0))
    else AddSeconds(now, if timeToLive.Int? then timeToLive else defaultExpire)
  }

  /** One `_cache` entry: the expiry time (0 for never) and the value. */
  datatype Entry = Entry(expire: Expiry, value: Value)

  /**
   * An entry is returned while `now < expire`, or always when `expire === 0`,
   * which a float never is.
   */
  predicate Live(entry: Entry, now: int) {
    match entry.expire
    case IntTime(at) => now < at || at == 0
    case FloatTime(mantissa, scale) => now * Pow10(scale) < mantissa
  }

  /** What the object's own map answers for `handle` at time `now`. */
  function Fetch(cache: map<string, Entry>, handle: string, now: int): (r: Option<Value>)
    ensures r.Some? <==> handle in cache && Live(cache[handle], now)
    ensures r.Some? ==> r.value == cache[handle].value
  {
    if handle in cache && Live(cache[handle], now) then Some(cache[handle].value) else None
  }

  /** The map after `get`: an expired entry for `handle` is dropped, nothing else changes. */
  function AfterGet(cache: map<string, Entry>, handle: string, now: int): (r: map<string, Entry>)
    ensures handle in cache && !Live(cache[handle], now) ==> handle !in r
    ensures forall h :: h != handle ==> (h in r <==> h in cache) && (h in r ==> r[h] == cache[h])
    ensures handle in r ==> handle in cache && r[handle] == cache[handle]
  {
    if handle in cache && !Live(cache[handle], now) then cache - {handle} else cache
  }

  /** A value stored with a positive time to live is returned until that many seconds have passed. */
  lemma SetThenFetch(cache: map<string, Entry>, handle: string, value: Value, timeToLive: int, now: int, later: int,
                     defaultExpire: Value)
    requires timeToLive > 0 && now <= later < now + timeToLive
    ensures var expire := ExpireTime(Int(timeToLive), now, defaultExpire);
      expire.Success? && Fetch(cache[handle := Entry(expire.value, value)], handle, later) == Some(value)
  {
  }

  /** A value stored with a time to live of 0 is returned at any later time. */
  lemma NeverExpires(cache: map<string, Entry>, handle: string, value: Value, now: int, later: int, defaultExpire: Value)
    ensures var expire := ExpireTime(Int(0), now, defaultExpire);
      expire.Success? && Fetch(cache[handle := Entry(expire.value, value)], handle, later) == Some(value)
  {
  }

  /**
   * Text that starts with a whole number, such as `"300 s"`, adds that
   * number (PHP 8 warns and goes on); text with no number in front, such as
   * a word, is a type error.
   */
  lemma AddLeadingNumber(now: int, n: nat, rest: string, word: string)
    requires rest != [] && !IsDigit(rest[0]) && rest[0] != '.' && rest[0] != 'e' && rest[0] != 'E'
    requires word != [] && !IsSpace(word[0]) && !Signed(word) && !IsDigit(word[0]) && word[0] != '.'
    ensures AddSeconds(now, Str(NatToString(n) + rest)) == Success(IntTime(now + n))
    ensures AddSeconds(now, Str(word)).Failure?
  {
    LeadingInteger(n, rest);
    NoNumberAhead(word);
  }

  /**
   * A default expire time written `"n.f"` (digits `f` after the point) is a
   * float sum: the entry outlives the whole second `now + n` it starts in and
   * is gone one second after it, where reading the default as the integer
   * `n` would drop it at `now + n`.
   */
  lemma {:induction false} FractionalDefaultLasts(cache: map<string, Entry>, handle: string, value: Value, now: int,
                                                  n: nat, fraction: string, later: int)
    requires fraction != [] && AllDigits(fraction) && DigitsValue(0, fraction) > 0
    ensures var expire := ExpireTime(Null, now, Str(NatToString(n) + "." + fraction));
      expire.Success? &&
      (later <= now + n ==> Fetch(cache[handle := Entry(expire.value, value)], handle, later) == Some(value)) &&
      (later > now + n ==> Fetch(cache[handle := Entry(expire.value, value)], handle, later) == None)
  {
    var p := Pow10(|fraction|);
    var f := DigitsValue(0, fraction);
    FractionalExpiry(now, n, fraction);
    DigitsValueBound(fraction);
    hide NatToString, DigitsValue, AllDigits, ExpireTime, Pow10;
    WholeSecondsLive(now, n, later, p, f);
  }

  /** The float time a default of `"n.f"` gives: `now + n + f/10^|f|`, held over that power of ten. */
  lemma FractionalExpiry(now: int, n: nat, fraction: string)
    requires AllDigits(fraction)
    ensures ExpireTime(Null, now, Str(NatToString(n) + "." + fraction)) ==
      Success(FloatTime(now * Pow10(|fraction|) + (n * Pow10(|fraction|) + DigitsValue(0, fraction)), |fraction|))
  {
    hide *;
    var s := NatToString(n) + "." + fraction;
    var k := |fraction|;
    var d := n * Pow10(k) + DigitsValue(0, fraction);
    FractionNumber(n, fraction);
    DefaultAddsNumber(now, s);
    AddFraction(now, d, k);
  }

  /** With no integer time to live, the expiry is the configured default's number added to now. */
  lemma DefaultAddsNumber(now: int, s: string)
    requires NumberPrefix(s).Some?
    ensures ExpireTime(Null, now, Str(s)) == Success(AddNumber(now, NumberPrefix(s).value.0))
  {
  }

  /** A float time from a number of `digits` over `10^k`, added to `now`. */
  lemma AddFraction(now: int, digits: nat, k: nat)
    ensures AddNumber(now, FloatNumber(false, digits, -(k as int))) == FloatTime(now * Pow10(k) + digits, k)
  {
  }

  /** `now + n + f/p` with `0 < f < p` lies after second `now + n` and before the next. */
  lemma WholeSecondsLive(now: int, n: nat, later: int, p: nat, f: nat)
    requires 0 < f < p
    ensures later <= now + n ==> later * p < now * p + (n * p + f)
    ensures later > now + n ==> later * p >= now * p + (n * p + f)
  {
    if later <= now + n {
      MultiplyBoth(later, now + n, p);
    } else {
      MultiplyBoth(now + n + 1, later, p);
    }
  }

  /** Storing one handle leaves what every other handle answers as it was. */
  lemma SetKeepsOthers(cache: map<string, Entry>, handle: string, entry: Entry, other: string, now: int)
    requires other != handle
    ensures Fetch(cache[handle := entry], other, now) == Fetch(cache, other, now)
  {
  }

  /** Whether a deeper cache was given to the constructor, and whether it is a `Brvr_Cache_Interface`. */
  datatype DeeperArg = NoDeeper | DeeperCache | NotACache

  /** The messages of the exceptions the constructor and `setConfig` throw. */
  const ConfigTypeMessage := "Parameter $config expected to be an array or instance of Zend_Config"
  const DeeperTypeMessage := "Parameter $deeperCache expected to be an instance of Brvr_Cache_Interface"
  const ConfigSetMessage := "Class configuration has already been set"

  /**
   * What `setConfig` and the constructor are given: a PHP value, or a
   * `Zend_Config` holding the entries its `toArray()` returns.
   */
  datatype ConfigArg = Plain(value: Value) | ZendConfig(entries: seq<(string, Value)>)

  /** The error for calling `toArray()` on the undefined, hence null, `$config`. */
  const NullCallMessage := "Call to a member function toArray() on null"

  /**
   * The conversion as written: a `Zend_Config` is converted through
   * `$config`, which `setConfig($params)` never defines.
   */
  function ConfigValueAsWritten(params: ConfigArg): (r: Result<Value>)
    ensures params.Plain? ==> r == Success(params.value)
    ensures params.ZendConfig? ==> r == Failure(NullCallMessage)
  {
    match params
    case Plain(v) => Success(v)
    case ZendConfig(_) => Failure(NullCallMessage)
  }

  /** The conversion meant: a `Zend_Config` becomes the array of its entries. */
  function ConfigValue(params: ConfigArg): (v: Value)
    ensures params.Plain? ==> v == params.value
    ensures params.ZendConfig? ==> v == Arr(params.entries)
  {
    match params
    case Plain(v) => v
    case ZendConfig(entries) => Arr(entries)
  }

  /** As written every `Zend_Config` is refused with an error; as meant each is read as its array. */
  lemma ZendConfigAsWrittenFails(entries: seq<(string, Value)>)
    ensures ConfigValueAsWritten(ZendConfig(entries)).Failure?
    ensures ConfigValue(ZendConfig(entries)).Arr?
  {
  }

  class ObjectCache {
    /** `_config`. */
    var config: seq<(string, Value)>
    /** Whether `_deeperCache` holds a cache (it is null otherwise). */
    var hasDeeper: bool
    /** `_cache`. */
    var cache: map<string, Entry>

    /** An object before `__construct` has run its checks: no configuration, no deeper cache, nothing stored. */
    constructor Empty()
      ensures config == [] && !hasDeeper && cache == map[]
    {
      config := [];
      hasDeeper := false;
      cache := map[];
    }

    /**
     * `__construct($config, $deeperCache = null)` run on an `Empty()` object:
     * store the configuration, then accept only null or a cache as the deeper cache.
     */
    method Construct(params: ConfigArg, deeperCache: DeeperArg) returns (r: Result<()>)
      requires config == [] && !hasDeeper && cache == map[]
      modifies this
      ensures r.Success? <==> ConfigValue(params).Arr? && deeperCache != NotACache
      ensures !ConfigValue(params).Arr? ==> r == Failure(ConfigTypeMessage)
      ensures ConfigValue(params).Arr? && deeperCache == NotACache ==>
        r == Failure(DeeperTypeMessage)
      ensures r.Success? ==> config == WithDefaults(ConfigValue(params).entries)
      ensures r.Success? ==> hasDeeper == (deeperCache == DeeperCache) && cache == map[]
    {
      hide *;
      r := SetConfig(params);
      if r.Failure? {
        return;
      }
      if deeperCache == NotACache {
        return Failure(DeeperTypeMessage);
      }
      hasDeeper := deeperCache == DeeperCache;
    }

    /**
     * `setConfig($params)`: only once, only an array or a `Zend_Config` read
     * as its array, with the defaults filled in.
     */
    method SetConfig(params: ConfigArg) returns (r: Result<()>)
      modifies this
      ensures r.Success? <==> old(config) == [] && ConfigValue(params).Arr?
      ensures old(config) == [] && params.ZendConfig? ==> r.Success? && config == WithDefaults(params.entries)
      ensures old(config) != [] ==> r == Failure(ConfigSetMessage)
      ensures old(config) == [] && !ConfigValue(params).Arr? ==>
        r == Failure(ConfigTypeMessage)
      ensures r.Success? ==> config == WithDefaults(ConfigValue(params).entries)
      ensures r.Failure? ==> config == old(config)
      ensures hasDeeper == old(hasDeeper) && cache == old(cache)
    {
      if config != [] {
        return Failure(ConfigSetMessage);
      }
      var value := ConfigValue(params);
      if !value.Arr? {
        return Failure(ConfigTypeMessage);
      }
      config := value.entries;
      if !IsSet(config, ConfigDefaultExpireTime) {
        config := Assign(config, ConfigDefaultExpireTime, Int(DefaultExpire));
      }
      if !IsSet(config, ConfigSetResStrict) {
        config := Assign(config, ConfigSetResStrict, Bool(false));
      }
      r := Success(());
    }

    /** `getConfig($param)`: the value when it is set, null otherwise. */
    function GetConfig(param: string): (v: Value)
      reads this
      ensures v != Null <==> IsSet(config, param)
      ensures v != Null ==> HasKey(config, param)
    {
      Lookup(config, param)
    }

    /**
     * `setDeep(...)`: with `deeperSet` the deeper cache's `set` result, the
     * call fails only when there is a deeper cache, its `set` failed and the
     * strict option is `=== true`.
     */
    function SetDeep(deeperSet: bool): (ok: bool)
      reads this
      ensures !ok <==> hasDeeper && !deeperSet && GetConfig(ConfigSetResStrict) == Bool(true)
    {
      if !hasDeeper then true
      else if !deeperSet && GetConfig(ConfigSetResStrict) == Bool(true) then false
      else true
    }

    /** `getDeep($handle)`: null without a deeper cache, else what its `get` returned (`deeperValue`). */
    function GetDeep(deeperValue: Value): (v: Value)
      reads this
      ensures !hasDeeper ==> v == Null
      ensures hasDeeper ==> v == deeperValue
    {
      if hasDeeper then deeperValue else Null
    }

    /**
     * `set($handle, $value, $expire = null)` at time `now`: a string handle
     * only; the entry is replaced and the result is that of `setDeep`.
     */
    method Set(handle: Value, value: Value, expire: Value, now: int, deeperSet: bool) returns (r: Result<bool>)
      modifies this
      ensures !handle.Str? ==> r == Failure("Method Brvr_Cache::set requires $handle be a string type")
      ensures handle.Str? && ExpireTime(expire, now, GetConfig(ConfigDefaultExpireTime)).Failure? ==> r.Failure?
      ensures r.Failure? ==> cache == old(cache)
      ensures r.Success? ==> handle.Str?
      ensures r.Success? ==>
        var expireTime := ExpireTime(expire, now, GetConfig(ConfigDefaultExpireTime));
        expireTime.Success? && cache == old(cache)[handle.s := Entry(expireTime.value, value)] &&
        r.value == SetDeep(deeperSet)
      ensures handle.Str? && ExpireTime(expire, now, GetConfig(ConfigDefaultExpireTime)).Success? ==> r.Success?
      ensures config == old(config) && hasDeeper == old(hasDeeper)
    {
      if !handle.Str? {
        return Failure("Method Brvr_Cache::set requires $handle be a string type");
      }
      var expireTime := ExpireTime(expire, now, GetConfig(ConfigDefaultExpireTime));
      if expireTime.Failure? {
        return Failure(expireTime.error);
      }
      cache := cache[handle.s := Entry(expireTime.value, value)];
      r := Success(SetDeep(deeperSet));
    }

    /**
     * `get($handle)` at time `now`: the stored value while it is live;
     * otherwise an expired entry is dropped and the answer is `getDeep`'s.
     */
    method Get(handle: string, now: int, deeperValue: Value) returns (v: Value)
      modifies this
      ensures Fetch(old(cache), handle, now).Some? ==> v == Fetch(old(cache), handle, now).value
      ensures Fetch(old(cache), handle, now).None? ==> v == GetDeep(deeperValue)
      ensures cache == AfterGet(old(cache), handle, now)
      ensures config == old(config) && hasDeeper == old(hasDeeper)
    {
      if handle in cache {
        if Live(cache[handle], now) {
          return cache[handle].value;
        }
        cache := cache - {handle};
      }
      v := GetDeep(deeperValue);
    }
  }
}
