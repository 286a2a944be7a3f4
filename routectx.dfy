/**
 * The pooled request context of zallocrout (pkg/zallocrout/context.go): route parameters and
 * custom values live in fixed-size arrays with a count of the slots in use, and
 * ExecuteHandler wraps the handler in its middlewares before releasing the context.
 *
 * Handlers and middlewares are Go functions; the model knows them only by an identity.
 */
module RouteCtx {
  import opened Wrappers

  const MaxParams := 32
  const MaxValues := 6

  type HandlerId = nat
  type MiddlewareId = nat

  /** paramPair and valuePair: a string key and its value. */
  datatype Pair<V> = Pair(key: string, value: V)

  /** A Go interface{} value: nil, or some value known by its identity. */
  datatype Any = Nil | Boxed(id: nat)

  /** The parent context.Context as its Value method answers string keys. */
  datatype Parent = Parent(values: map<string, Any>)

  /** The value of the first pair whose key is key. */
  function Lookup<V>(pairs: seq<Pair<V>>, key: string): Option<V>
  {
    if pairs == [] then None
    else if pairs[0].key == key then Some(pairs[0].value)
    else Lookup(pairs[1..], key)
  }

  /** Lookup answers with the first pair that has the key ... */
  lemma {:induction false} LookupFirst<V>(pairs: seq<Pair<V>>, key: string, i: int)
    requires 0 <= i < |pairs| && pairs[i].key == key
    requires forall j :: 0 <= j < i ==> pairs[j].key != key
    ensures Lookup(pairs, key) == Some(pairs[i].value)
  {
    if i > 0 {
      LookupFirst(pairs[1..], key, i - 1);
    }
  }

  /** ... and finds nothing when no pair has it. */
  lemma {:induction false} LookupAbsent<V>(pairs: seq<Pair<V>>, key: string)
    requires forall j :: 0 <= j < |pairs| ==> pairs[j].key != key
    ensures Lookup(pairs, key) == None
  {
    if pairs != [] {
      LookupAbsent(pairs[1..], key);
    }
  }

  /** What Value answers for a string key: a local value first, then the parent's. */
  function ContextValue(values: seq<Pair<Any>>, parent: Parent, key: string): Any
  {
    match Lookup(values, key)
    case Some(v) => v
    case None => if key in parent.values then parent.values[key] else Nil
  }

  class RouteContext {
    var parent: Option<Parent>
    const paramPairs: array<Pair<string>>
    var paramCount: int
    const valuePairs: array<Pair<Any>>
    var valueCount: int

    ghost predicate Valid()
      reads this
    {
      && paramPairs.Length == MaxParams && valuePairs.Length == MaxValues
      && 0 <= paramCount <= MaxParams && 0 <= valueCount <= MaxValues
    }

    /** The route parameters in use. */
    function Params(): seq<Pair<string>>
      requires Valid()
      reads this, paramPairs
    {
      paramPairs[..paramCount]
    }

    /** The custom values in use. */
    function Values(): seq<Pair<Any>>
      requires Valid()
      reads this, valuePairs
    {
      valuePairs[..valueCount]
    }

    /** The pool's New: an empty context. */
    constructor ()
      ensures Valid() && fresh(paramPairs) && fresh(valuePairs)
      ensures parent == None && Params() == [] && Values() == []
    {
      parent := None;
      paramPairs := new Pair<string>[MaxParams](_ => Pair("", ""));
      paramCount := 0;
      valuePairs := new Pair<Any>[MaxValues](_ => Pair("", Nil));
      valueCount := 0;
    }

    /** acquireContext on a pooled context: the parent, exactly count parameters copied from
        src, and no custom values. */
    method Acquire(parent': Option<Parent>, src: array<Pair<string>>, count: int)
      requires Valid() && src.Length == MaxParams && 0 <= count <= MaxParams
      modifies this, paramPairs
      ensures Valid()
      ensures parent == parent' && Params() == old(src[..count]) && Values() == []
    {
      parent := parent';
      paramCount := count;
      valueCount := 0;
      var k := 0;
      while k < count
        invariant 0 <= k <= count
        invariant parent == parent' && paramCount == count && valueCount == 0
        invariant forall q :: 0 <= q < k ==> paramPairs[q] == old(src[q])
        invariant forall q :: k <= q < MaxParams ==> src[q] == old(src[q])
      {
        paramPairs[k] := src[k];
        k := k + 1;
      }
      assert forall q :: 0 <= q < count ==> Params()[q] == old(src[..count])[q];
    }

    /** releaseContext: no parent, no parameters, and the used value slots zeroed. */
    method Release()
      requires Valid()
      modifies this, valuePairs
      ensures Valid() && parent == None && Params() == [] && Values() == []
      ensures forall q :: 0 <= q < old(valueCount) ==> valuePairs[q] == Pair("", Nil)
      ensures forall q :: old(valueCount) <= q < MaxValues ==> valuePairs[q] == old(valuePairs[q])
    {
      parent := None;
      paramCount := 0;
      if valueCount > 0 {
        var k := 0;
        while k < valueCount
          invariant 0 <= k <= valueCount && valueCount == old(valueCount)
          invariant parent == None && paramCount == 0
          invariant forall q :: 0 <= q < k ==> valuePairs[q] == Pair("", Nil)
          invariant forall q :: k <= q < MaxValues ==> valuePairs[q] == old(valuePairs[q])
        {
          valuePairs[k] := Pair("", Nil);
          k := k + 1;
        }
        valueCount := 0;
      }
    }

    /** SetValue: refused when all MaxValues slots are used, else one pair appended. */
    method SetValue(key: string, value: Any) returns (ok: bool)
      requires Valid()
      modifies this, valuePairs
      ensures Valid() && parent == old(parent) && Params() == old(Params())
      ensures ok <==> old(valueCount) < MaxValues
      ensures Values() == if ok then old(Values()) + [Pair(key, value)] else old(Values())
    {
      if valueCount >= MaxValues {
        return false;
      }
      valuePairs[valueCount] := Pair(key, value);
      valueCount := valueCount + 1;
      assert Values() == old(Values()) + [Pair(key, value)];
      return true;
    }

    method GetValue(key: string) returns (r: Option<Any>)
      requires Valid()
      ensures r == Lookup(Values(), key)
    {
      var i := 0;
      while i < valueCount
        invariant 0 <= i <= valueCount
        invariant forall j :: 0 <= j < i ==> Values()[j].key != key
      {
        if valuePairs[i].key == key {
          LookupFirst(Values(), key, i);
          return Some(valuePairs[i].value);
        }
        i := i + 1;
      }
      LookupAbsent(Values(), key);
      return None;
    }

    method GetParam(key: string) returns (r: Option<string>)
      requires Valid()
      ensures r == Lookup(Params(), key)
    {
      var i := 0;
      while i < paramCount
        invariant 0 <= i <= paramCount
        invariant forall j :: 0 <= j < i ==> Params()[j].key != key
      {
        if paramPairs[i].key == key {
          LookupFirst(Params(), key, i);
          return Some(paramPairs[i].value);
        }
        i := i + 1;
      }
      LookupAbsent(Params(), key);
      return None;
    }

    /** Value on a string key: the local values are searched before the parent, which must
        be there when the key is not found locally. */
    method Value(key: string) returns (r: Any)
      requires Valid()
      requires Lookup(Values(), key).Some? || parent.Some?
      ensures Lookup(Values(), key).Some? ==> r == Lookup(Values(), key).value
      ensures parent.Some? ==> r == ContextValue(Values(), parent.value, key)
    {
      var i := 0;
      while i < valueCount
        invariant 0 <= i <= valueCount
        invariant forall j :: 0 <= j < i ==> Values()[j].key != key
      {
        if valuePairs[i].key == key {
          LookupFirst(Values(), key, i);
          return valuePairs[i].value;
        }
        i := i + 1;
      }
      LookupAbsent(Values(), key);
      var p := parent.value;
      r := if key in p.values then p.values[key] else Nil;
    }
  }

  // ---------------------------------------------------------------------------
  // ExecuteHandler

  /** A handler wrapped in middlewares, the outermost wrapper first. */
  datatype Chain = Base(handler: HandlerId) | Wrapped(middleware: MiddlewareId, inner: Chain)

  /** The first listed middleware is the outermost wrapper. */
  function Composed(handler: HandlerId, middlewares: seq<MiddlewareId>): Chain
  {
    if middlewares == [] then Base(handler)
    else Wrapped(middlewares[0], Composed(handler, middlewares[1..]))
  }

  /** The wrappers from the outside in. */
  function Layers(c: Chain): seq<MiddlewareId>
  {
    match c
    case Base(_) => []
    case Wrapped(m, inner) => [m] + Layers(inner)
  }

  function Innermost(c: Chain): HandlerId
  {
    match c
    case Base(h) => h
    case Wrapped(_, inner) => Innermost(inner)
  }

  /** The chain calls the middlewares in list order and the handler last. */
  lemma {:induction false} ComposedLayers(handler: HandlerId, middlewares: seq<MiddlewareId>)
    ensures Layers(Composed(handler, middlewares)) == middlewares
    ensures Innermost(Composed(handler, middlewares)) == handler
  {
    if middlewares != [] {
      ComposedLayers(handler, middlewares[1..]);
    }
  }

  /** Wrapping from the last middleware back to the first, as ExecuteHandler's loop does. */
  lemma ComposedSuffix(handler: HandlerId, middlewares: seq<MiddlewareId>, i: int)
    requires 0 <= i < |middlewares|
    ensures Composed(handler, middlewares[i..]) == Wrapped(middlewares[i], Composed(handler, middlewares[i + 1..]))
  {
    assert middlewares[i..][1..] == middlewares[i + 1..];
  }

  /** ExecuteHandler: the chain that is called on ctx, and ctx released afterwards. Calling
      the chain is a call into user code and is not modelled. */
  method ExecuteHandler(ctx: RouteContext, handler: HandlerId, middlewares: seq<MiddlewareId>)
    returns (final: Chain)
    requires ctx.Valid()
    modifies ctx, ctx.valuePairs
    ensures final == Composed(handler, middlewares)
    ensures ctx.Valid() && ctx.parent == None && ctx.Params() == [] && ctx.Values() == []
  {
    final := Base(handler);
    var i := |middlewares|;
    while i > 0
      modifies {}
      invariant 0 <= i <= |middlewares|
      invariant final == Composed(handler, middlewares[i..])
    {
      i := i - 1;
      ComposedSuffix(handler, middlewares, i);
      final := Wrapped(middlewares[i], final);
    }
    ctx.Release();
  }
}
