/**
 * The single-slot typed result: a PHP array that every setter replaces
 * with the one entry `{stored: value}`, and typed getters that fail when the
 * key is absent.
 */
module CacheResultModel {
  import opened Wrappers

  /** A value held in the result: a string, an array, a bool, an int, or anything else PHP can store. */
  datatype Value = Str(s: string) | Arr(elements: seq<Value>) | Bool(b: bool) | Int(i: int) | Other

  /**
   * Why a getter fails: the key is absent (NotCachedException), or the entry
   * holds a value of another type than the getter declares, which strict
   * types turn into a TypeError.
   */
  datatype CacheResultError = NotCached | WrongType

  /** The result array, by key. */
  type Store = map<string, Value>

  /** The key every setter and getter uses by default. */
  const DefaultKey: string := "value"

  /** What `get` returns for a result. */
  function AsString(result: Store, stored: string): (r: Result<string, CacheResultError>)
    ensures stored !in result ==> r == Failure(NotCached)
    ensures r.Success? <==> stored in result && result[stored].Str?
    ensures r.Success? ==> result[stored] == Str(r.value)
  {
    if stored !in result then Failure(NotCached)
    else match result[stored]
      case Str(s) => Success(s)
      case _ => Failure(WrongType)
  }

  /** What `getArray` returns for a result. */
  function AsArray(result: Store, stored: string): (r: Result<seq<Value>, CacheResultError>)
    ensures stored !in result ==> r == Failure(NotCached)
    ensures r.Success? <==> stored in result && result[stored].Arr?
    ensures r.Success? ==> result[stored] == Arr(r.value)
  {
    if stored !in result then Failure(NotCached)
    else match result[stored]
      case Arr(a) => Success(a)
      case _ => Failure(WrongType)
  }

  /** What `getBool` returns for a result. */
  function AsBool(result: Store, stored: string): (r: Result<bool, CacheResultError>)
    ensures stored !in result ==> r == Failure(NotCached)
    ensures r.Success? <==> stored in result && result[stored].Bool?
    ensures r.Success? ==> result[stored] == Bool(r.value)
  {
    if stored !in result then Failure(NotCached)
    else match result[stored]
      case Bool(b) => Success(b)
      case _ => Failure(WrongType)
  }

  /** What `getInt` returns for a result. */
  function AsInt(result: Store, stored: string): (r: Result<int, CacheResultError>)
    ensures stored !in result ==> r == Failure(NotCached)
    ensures r.Success? <==> stored in result && result[stored].Int?
    ensures r.Success? ==> result[stored] == Int(r.value)
  {
    if stored !in result then Failure(NotCached)
    else match result[stored]
      case Int(i) => Success(i)
      case _ => Failure(WrongType)
  }

  /** A fresh result is empty, so every getter fails with NotCached, whatever the key. */
  lemma FreshNotCached(stored: string)
    ensures AsString(map[], stored) == Failure(NotCached)
    ensures AsArray(map[], stored) == Failure(NotCached)
    ensures AsBool(map[], stored) == Failure(NotCached)
    ensures AsInt(map[], stored) == Failure(NotCached)
  {
  }

  /** Each setter's single entry is read back by the matching getter under the same key. */
  lemma SetThenGet(stored: string, s: string, a: seq<Value>, b: bool, i: int)
    ensures AsString(map[stored := Str(s)], stored) == Success(s)
    ensures AsArray(map[stored := Arr(a)], stored) == Success(a)
    ensures AsBool(map[stored := Bool(b)], stored) == Success(b)
    ensures AsInt(map[stored := Int(i)], stored) == Success(i)
  {
  }

  /** After any setter, every other key is gone: each getter under it fails with NotCached. */
  lemma SetDiscardsOtherKeys(stored: string, other: string, v: Value)
    requires other != stored
    ensures other !in map[stored := v]
    ensures AsString(map[stored := v], other) == Failure(NotCached)
    ensures AsArray(map[stored := v], other) == Failure(NotCached)
    ensures AsBool(map[stored := v], other) == Failure(NotCached)
    ensures AsInt(map[stored := v], other) == Failure(NotCached)
  {
  }

  function Count(b: bool): nat
  {
    if b then 1 else 0
  }

  /**
   * On a present key each getter either returns the value or fails with
   * WrongType, and exactly one getter succeeds when the value is a string,
   * array, bool or int.
   */
  lemma GettersOnPresentKey(result: Store, stored: string)
    requires stored in result
    ensures AsString(result, stored).Failure? ==> AsString(result, stored).error == WrongType
    ensures AsArray(result, stored).Failure? ==> AsArray(result, stored).error == WrongType
    ensures AsBool(result, stored).Failure? ==> AsBool(result, stored).error == WrongType
    ensures AsInt(result, stored).Failure? ==> AsInt(result, stored).error == WrongType
    ensures Count(AsString(result, stored).Success?) + Count(AsArray(result, stored).Success?) +
      Count(AsBool(result, stored).Success?) + Count(AsInt(result, stored).Success?) == if result[stored].Other? then 0 else 1
  {
  }

  class CacheResult {
    /** The key this result was created for; no method changes it. */
    var source: string
    var result: Store

    constructor(source: string)
      ensures this.source == source && result == map[]
    {
      this.source := source;
      result := map[];
    }

    method GetResult() returns (r: Store)
      ensures r == result
    {
      r := result;
    }

    method SetResult(r: Store)
      modifies this
      ensures result == r && source == old(source)
    {
      result := r;
    }

    method Set(value: string, stored: string := DefaultKey)
      modifies this
      ensures result == map[stored := Str(value)] && source == old(source)
    {
      SetResult(map[stored := Str(value)]);
    }

    method Get(stored: string := DefaultKey) returns (r: Result<string, CacheResultError>)
      ensures r == AsString(result, stored)
    {
      var res := GetResult();
      if stored !in res {
        return Failure(NotCached);
      }
      r := if res[stored].Str? then Success(res[stored].s) else Failure(WrongType);
    }

    method SetArray(value: seq<Value>, stored: string := DefaultKey)
      modifies this
      ensures result == map[stored := Arr(value)] && source == old(source)
    {
      SetResult(map[stored := Arr(value)]);
    }

    method GetArray(stored: string := DefaultKey) returns (r: Result<seq<Value>, CacheResultError>)
      ensures r == AsArray(result, stored)
    {
      var res := GetResult();
      if stored !in res {
        return Failure(NotCached);
      }
      r := if res[stored].Arr? then Success(res[stored].elements) else Failure(WrongType);
    }

    method SetBool(value: bool, stored: string := DefaultKey)
      modifies this
      ensures result == map[stored := Bool(value)] && source == old(source)
    {
      SetResult(map[stored := Bool(value)]);
    }

    method GetBool(stored: string := DefaultKey) returns (r: Result<bool, CacheResultError>)
      ensures r == AsBool(result, stored)
    {
      var res := GetResult();
      if stored !in res {
        return Failure(NotCached);
      }
      r := if res[stored].Bool? then Success(res[stored].b) else Failure(WrongType);
    }

    method SetInt(value: int, stored: string := DefaultKey)
      modifies this
      ensures result == map[stored := Int(value)] && source == old(source)
    {
      SetResult(map[stored := Int(value)]);
    }

    method GetInt(stored: string := DefaultKey) returns (r: Result<int, CacheResultError>)
      ensures r == AsInt(result, stored)
    {
      var res := GetResult();
      if stored !in res {
        return Failure(NotCached);
      }
      r := if res[stored].Int? then Success(res[stored].i) else Failure(WrongType);
    }
  }
}
