/**
 * The DevTools-protocol proxy of the Webview widget (webview.cpp): indexing
 * the proxy builds a dotted method name in its metatable, calling it sends
 * that method and clears the name, and setting an event subscribes to
 * "<path>.<key>". The print-settings `copies` default sits here as well.
 */
module CdpPath {
  import opened Wrappers
  import opened CStrings

  /**
   * A proxy table and the "path" field of the metatable it reads (nil when
   * absent). Every proxy, of every Webview, has the one registry metatable
   * "path_mt", so `path` is that shared field: indexing any proxy extends the
   * same path (see InterleavedProxiesSharePath).
   */
  datatype Proxy = Proxy(id: nat, path: Option<string>)

  /** The result of an index: the updated proxy and the object the expression yields. */
  datatype Indexed = Indexed(proxy: Proxy, result: nat)

  /** The path_index buffer size without its terminator. */
  function NewLength(current: string, key: string): nat {
    |CStr(current)| + |CStr(key)| + (if |CStr(current)| > 0 then 1 else 0)
  }

  /** The new path: the key alone when there is no current path, else current + "." + key. */
  function Extend(current: string, key: string): (r: string)
    ensures |r| == NewLength(current, key)
    ensures NoNul(r)
    ensures |CStr(current)| == 0 ==> r == CStr(key)
    ensures |CStr(current)| > 0 ==> r == CStr(current) + "." + CStr(key)
  {
    var c := CStr(current);
    var k := CStr(key);
    if |c| > 0 then
      var r := c + "." + k;
      assert forall j :: 0 <= j < |r| ==> r[j] != NUL by {
        forall j | 0 <= j < |r|
          ensures r[j] != NUL
        {
          if j < |c| {
            assert r[j] == c[j];
          } else if j > |c| {
            assert r[j] == k[j - |c| - 1];
          }
        }
      }
      r
    else k
  }

  /**
   * path_index: reads the current path (nil reads as ""), stores the extended
   * path and yields the proxy itself so that indexing can be chained.
   */
  function Index(p: Proxy, key: string): (r: Indexed)
    ensures r.result == p.id && r.proxy.id == p.id
    ensures r.proxy.path.Some? && NoNul(r.proxy.path.value)
    ensures |r.proxy.path.value| == NewLength(if p.path.Some? then p.path.value else "", key)
  {
    var current := if p.path.Some? then p.path.value else "";
    Indexed(Proxy(p.id, Some(Extend(current, key))), p.id)
  }

  /** Indexing by each key in turn. */
  function IndexAll(p: Proxy, keys: seq<string>): (r: Proxy)
    ensures r.id == p.id
    decreases |keys|
  {
    if |keys| == 0 then p else IndexAll(Index(p, keys[0]).proxy, keys[1..])
  }

  /** After at least one key the path is set and holds no NUL. */
  lemma {:induction false} IndexAllSetsPath(p: Proxy, keys: seq<string>)
    requires |keys| > 0
    ensures IndexAll(p, keys).path.Some? && NoNul(IndexAll(p, keys).path.value)
    decreases |keys|
  {
    var q := Index(p, keys[0]).proxy;
    if |keys| > 1 {
      IndexAllSetsPath(q, keys[1..]);
    } else {
      assert IndexAll(p, keys) == IndexAll(q, []);
    }
  }

  /** Keys joined with '.'. */
  function Join(keys: seq<string>): string {
    if |keys| == 0 then ""
    else if |keys| == 1 then keys[0]
    else keys[0] + "." + Join(keys[1..])
  }

  /** Non-empty keys without NUL. */
  predicate PlainKeys(keys: seq<string>) {
    forall j :: 0 <= j < |keys| ==> |keys[j]| > 0 && NoNul(keys[j])
  }

  lemma PlainTail(keys: seq<string>)
    requires |keys| > 0 && PlainKeys(keys)
    ensures PlainKeys(keys[1..])
  {
    forall j | 0 <= j < |keys[1..]|
      ensures |keys[1..][j]| > 0 && NoNul(keys[1..][j])
    {
      assert keys[1..][j] == keys[j + 1];
    }
  }

  /** Indexing a proxy that already holds a path appends the dotted keys to it. */
  lemma {:induction false} IndexAllFrom(p: Proxy, keys: seq<string>)
    requires p.path.Some? && |p.path.value| > 0 && NoNul(p.path.value) && PlainKeys(keys)
    ensures |keys| == 0 ==> IndexAll(p, keys) == p
    ensures |keys| > 0 ==> IndexAll(p, keys).path == Some(p.path.value + "." + Join(keys))
    decreases |keys|
  {
    if |keys| > 0 {
      var s := p.path.value;
      CStrOfNoNul(s);
      CStrOfNoNul(keys[0]);
      var q := Index(p, keys[0]).proxy;
      assert q.path == Some(s + "." + keys[0]);
      PlainTail(keys);
      var rest := keys[1..];
      IndexAllFrom(q, rest);
      if |rest| > 0 {
        assert Join(keys) == keys[0] + "." + Join(rest);
        assert (s + "." + keys[0]) + "." + Join(rest) == s + "." + (keys[0] + "." + Join(rest));
      } else {
        assert Join(keys) == keys[0];
      }
    }
  }

  /** From a cleared proxy, indexing by plain keys yields their dotted join. */
  lemma IndexAllJoins(p: Proxy, keys: seq<string>)
    requires p.path.None? && |keys| > 0 && PlainKeys(keys)
    ensures IndexAll(p, keys).path == Some(Join(keys))
  {
    CStrOfNoNul(keys[0]);
    var q := Index(p, keys[0]).proxy;
    assert q.path == Some(keys[0]);
    PlainTail(keys);
    IndexAllFrom(q, keys[1..]);
    if |keys| > 1 {
      assert Join(keys) == keys[0] + "." + Join(keys[1..]);
    }
  }

  /**
   * The path lives in the metatable every proxy shares, so a second proxy
   * carries the path the first one left: a key used on one proxy and then one
   * used on another build a single dotted name.
   */
  lemma InterleavedProxiesSharePath(a: nat, b: nat, k1: string, k2: string)
    requires |k1| > 0 && NoNul(k1) && NoNul(k2)
    ensures
      var first := Index(Proxy(a, None), k1).proxy;
      Index(Proxy(b, first.path), k2).proxy.path == Some(k1 + "." + k2)
  {
    CStrOfNoNul(k1);
    CStrOfNoNul(k2);
  }

  /** Appending a key to a non-empty chain appends "." and the key to its join. */
  lemma {:induction false} JoinSnoc(keys: seq<string>, key: string)
    requires |keys| > 0
    ensures Join(keys + [key]) == Join(keys) + "." + key
    decreases |keys|
  {
    var all := keys + [key];
    assert all[0] == keys[0];
    if |keys| == 1 {
      assert all[1..] == [key];
    } else {
      assert all[1..] == keys[1..] + [key];
      JoinSnoc(keys[1..], key);
      assert Join(all) == keys[0] + "." + (Join(keys[1..]) + "." + key);
    }
  }

  // ---------------------------------------------------------------- call_cdp and setevent_cdp

  /** A DevTools-protocol request: the method name and its JSON parameters. */
  datatype Request = Request(name: string, json: string)

  datatype Called = Called(proxy: Proxy, request: Option<Request>)

  /**
   * call_cdp: with a live WebView2 control, sends the stored path as the
   * method with the given JSON (or "{}"), then clears the path; without one,
   * nothing happens. The source reads the path without checking it is set.
   */
  function Call(p: Proxy, ready: bool, params: Option<string>): (r: Called)
    requires ready ==> p.path.Some?
    ensures r.proxy.id == p.id
    ensures ready ==> r.proxy.path.None? && r.request.Some?
    ensures ready ==> r.request.value.name == CStr(p.path.value)
    ensures ready ==> r.request.value.json == (if params.Some? then CStr(params.value) else "{}")
    ensures !ready ==> r == Called(p, None)
  {
    if ready then
      var json := if params.Some? then CStr(params.value) else "{}";
      Called(Proxy(p.id, None), Some(Request(CStr(p.path.value), json)))
    else Called(p, None)
  }

  /** What setevent_cdp subscribes to; the handler must be a function. */
  datatype Subscription = Subscription(event: string)

  /**
   * setevent_cdp: a non-function handler is an error; with a live control the
   * event name is path + "." + key. The path is left as it was.
   */
  function SetEvent(p: Proxy, ready: bool, key: string, handlerIsFunction: bool): (r: Result<Option<Subscription>, string>)
    requires ready ==> p.path.Some?
    ensures !handlerIsFunction <==> r.Err?
    ensures r.Ok? && ready ==> r.value == Some(Subscription(CStr(p.path.value) + "." + CStr(key)))
    ensures r.Ok? && !ready ==> r.value.None?
  {
    if !handlerIsFunction then Err("function expected")
    else if ready then Ok(Some(Subscription(CStr(p.path.value) + "." + CStr(key))))
    else Ok(None)
  }

  /**
   * Setting a field on `proxy.a.b` subscribes to the event "a.b.<field>": the
   * keys of the chain and the assigned key, joined with '.'.
   */
  lemma EventOfIndexedPath(p: Proxy, keys: seq<string>, key: string)
    requires p.path.None? && |keys| > 0 && PlainKeys(keys) && NoNul(key)
    ensures IndexAll(p, keys).path.Some?
    ensures SetEvent(IndexAll(p, keys), true, key, true) == Ok(Some(Subscription(Join(keys + [key]))))
  {
    IndexAllJoins(p, keys);
    IndexAllSetsPath(p, keys);
    CStrOfNoNul(Join(keys));
    CStrOfNoNul(key);
    JoinSnoc(keys, key);
  }

  /** A call clears the path, so the next index starts a fresh method name. */
  lemma CallThenIndexStartsOver(p: Proxy, params: Option<string>, key: string)
    requires p.path.Some? && NoNul(key)
    ensures Index(Call(p, true, params).proxy, key).proxy.path == Some(key)
  {
    CStrOfNoNul(key);
  }

  // ---------------------------------------------------------------- printsettingsFromTable

  /** The conversion of a Lua integer to the INT32 parameter of put_Copies. */
  function ToInt32(n: int): (r: int)
    ensures -0x8000_0000 <= r < 0x8000_0000
    ensures -0x8000_0000 <= n < 0x8000_0000 ==> r == n
  {
    var u := n % 0x1_0000_0000;
    if u >= 0x8000_0000 then u - 0x1_0000_0000 else u
  }

  /**
   * The copies passed to the print settings: none when the field is nil;
   * otherwise lua_tointeger of it (0 for non-numbers), with 0 replaced by 1.
   */
  function Copies(field: Option<int>): (r: Option<int>)
    ensures field.None? <==> r.None?
    ensures field == Some(0) ==> r == Some(1)
    ensures field.Some? && field.value != 0 && -0x8000_0000 <= field.value < 0x8000_0000 ==> r == field
  {
    match field
    case None => None
    case Some(n) => Some(ToInt32(if n == 0 then 1 else n))
  }

  /**
   * The 0-to-1 default is applied before the conversion to INT32, so a
   * non-zero multiple of 2^32 still reaches the print settings as 0 copies.
   */
  lemma CopiesZero(n: int)
    ensures Copies(Some(n)) == Some(0) <==> n != 0 && n % 0x1_0000_0000 == 0
  {
    if n != 0 {
      var u := n % 0x1_0000_0000;
      assert ToInt32(n) == 0 <==> u == 0;
    }
  }
}
