/** The links editor of vm/app.py: the same kind of record with different
    defaults, a bulk update that stores every non-empty submitted value
    without checking it, and a proxy that fetches the stored URL itself and
    relays the answer minus the hop-by-hop headers. The fetch is a parameter:
    what `requests.get` returns for a URL. */
module LinksEditor {
  import opened Wrappers
  import opened Seqs
  import opened Text
  import opened Dicts
  import LinkStore

  /** The record written when `tv_links.json` does not exist yet. */
  function DefaultLinks(): (d: Dict)
    ensures d.Valid() && d.keys == LinkStore.DefaultIds
    ensures "tv1" in d.values && d.values["tv1"] == "https://www.youtube.com"
    ensures "tv2" in d.values && d.values["tv2"] == "https://www.facebook.com"
    ensures "tv3" in d.values && d.values["tv3"] == "https://www.twitter.com"
    ensures "tv4" in d.values && d.values["tv4"] == "https://www.instagram.com"
    ensures "tv5" in d.values && d.values["tv5"] == "https://www.reddit.com"
    ensures "tv6" in d.values && d.values["tv6"] == "https://www.netflix.com"
  {
    var values := map["tv1" := "https://www.youtube.com", "tv2" := "https://www.facebook.com",
                      "tv3" := "https://www.twitter.com", "tv4" := "https://www.instagram.com",
                      "tv5" := "https://www.reddit.com", "tv6" := "https://www.netflix.com"];
    LinkStore.OnDefaultIds(values);
    Dict(LinkStore.DefaultIds, values)
  }

  /** The form carries a non-empty value for `k`. */
  predicate Submitted(form: map<string, string>, k: string)
    ensures Submitted(form, k) <==> Get(form, k).Some? && Get(form, k).value != ""
  {
    k in form && form[k] != ""
  }

  /** The record after `update_links`: every existing key with a non-empty
      submitted value takes it; fields naming unknown ids are ignored. */
  function Overwritten(d: Dict, form: map<string, string>): (r: Dict)
    requires d.Valid()
    ensures r.Valid() && r.keys == d.keys && r.values.Keys == d.values.Keys
  {
    Dict(d.keys, map k | k in d.values :: if Submitted(form, k) then form[k] else d.values[k])
  }

  /** Key by key: a submitted value replaces the stored one, and a key the
      form leaves out or leaves empty keeps its value. */
  lemma OverwrittenValues(d: Dict, form: map<string, string>, k: string)
    requires d.Valid() && k in d.values
    ensures Submitted(form, k) ==> Overwritten(d, form).values[k] == form[k]
    ensures !Submitted(form, k) ==> Overwritten(d, form).values[k] == d.values[k]
  {
  }

  /** For every form, the record the validating update of the Flask link
      store would save by merging is exactly what this one saves: values
      equal to the stored ones make no difference. The two differ only in
      that the validating update refuses a form with a rejected value. */
  lemma AgreesWithValidatingUpdate(d: Dict, form: map<string, string>)
    requires d.Valid()
    ensures LinkStore.Merged(d, form) == Overwritten(d, form)
  {
    var a, b := LinkStore.Merged(d, form), Overwritten(d, form);
    forall k | k in d.values
      ensures a.values[k] == b.values[k]
    {
    }
    assert a.values == b.values;
  }

  /** The record once the loop has handled the first `n` keys. */
  ghost function OverwrittenUpTo(d: Dict, form: map<string, string>, n: nat): (r: Dict)
    requires d.Valid() && n <= |d.keys|
    ensures r.Valid() && r.keys == d.keys && r.values.Keys == d.values.Keys
  {
    if n == 0 then d
    else
      var prev, k := OverwrittenUpTo(d, form, n - 1), d.keys[n - 1];
      if Submitted(form, k) then Put(prev, k, form[k]) else prev
  }

  lemma {:induction false} OverwrittenUpToAt(d: Dict, form: map<string, string>, n: nat, k: string)
    requires d.Valid() && n <= |d.keys| && k in d.values
    ensures OverwrittenUpTo(d, form, n).values[k] ==
      if k in d.keys[..n] && Submitted(form, k) then form[k] else d.values[k]
  {
    if n > 0 {
      OverwrittenUpToAt(d, form, n - 1, k);
      var last := d.keys[n - 1];
      assert d.keys[..n] == d.keys[..n - 1] + [last];
      assert last !in d.keys[..n - 1];
    }
  }

  lemma OverwrittenUpToEnd(d: Dict, form: map<string, string>)
    requires d.Valid()
    ensures OverwrittenUpTo(d, form, |d.keys|) == Overwritten(d, form)
  {
    var a, b := OverwrittenUpTo(d, form, |d.keys|), Overwritten(d, form);
    assert d.keys[..|d.keys|] == d.keys;
    forall k | k in d.values
      ensures a.values[k] == b.values[k]
    {
      OverwrittenUpToAt(d, form, |d.keys|, k);
    }
    assert a.values == b.values;
  }

  /** The loop of `update_links` over the loaded record. */
  method Overwrite(d: Dict, form: map<string, string>) returns (r: Dict)
    requires d.Valid()
    ensures r == Overwritten(d, form)
  {
    r := d;
    var i := 0;
    while i < |d.keys|
      invariant 0 <= i <= |d.keys|
      invariant r == OverwrittenUpTo(d, form, i)
    {
      var tv := d.keys[i];
      var newUrl := Get(form, tv);
      if newUrl.Some? && newUrl.value != "" {
        r := Put(r, tv, newUrl.value);
      }
      i := i + 1;
    }
    OverwrittenUpToEnd(d, form);
  }

  type Header = (string, string)

  const ExcludedHeaders: seq<string> := ["content-encoding", "content-length", "transfer-encoding", "connection"]

  /** A header is forwarded unless its lower-cased name is excluded. */
  predicate Forwarded(h: Header)
    ensures Forwarded(h) <==> forall e :: e in ExcludedHeaders ==> Lower(h.0) != e
  {
    Lower(h.0) !in ExcludedHeaders
  }

  /** The headers of the relayed response: the upstream headers that are
      forwarded, in their upstream order. */
  function ForwardedHeaders(hs: seq<Header>): (r: seq<Header>)
    ensures |r| <= |hs|
    ensures forall h :: h in r <==> h in hs && Lower(h.0) !in ExcludedHeaders
  {
    Filter(hs, Forwarded)
  }

  /** The filter works header by header and keeps the order: split the list
      anywhere and the result splits at the same point. */
  lemma ForwardedHeadersKeepOrder(a: seq<Header>, b: seq<Header>, h: Header)
    ensures ForwardedHeaders(a + b) == ForwardedHeaders(a) + ForwardedHeaders(b)
    ensures ForwardedHeaders([h]) == if Forwarded(h) then [h] else []
  {
    FilterConcat(a, b, Forwarded);
    assert [h][1..] == [];
  }

  /** The lower-cased forms of the header names used below. */
  lemma LowerHeaderNames()
    ensures Lower("Content-Encoding") == ExcludedHeaders[0]
    ensures Lower("Content-Length") == ExcludedHeaders[1]
    ensures Lower("Transfer-Encoding") == ExcludedHeaders[2]
    ensures Lower("CONNECTION") == ExcludedHeaders[3]
    ensures Lower("Content-Type") !in ExcludedHeaders
  {
    assert Lower("Content-Encoding") == ExcludedHeaders[0];
    assert Lower("Content-Length") == ExcludedHeaders[1];
    assert Lower("Transfer-Encoding") == ExcludedHeaders[2];
    assert Lower("CONNECTION") == ExcludedHeaders[3];
    var k := Lower("Content-Type");
    assert k[8] != ExcludedHeaders[0][8] && k != ExcludedHeaders[1];
    assert |k| != |ExcludedHeaders[2]| && |k| != |ExcludedHeaders[3]|;
  }

  /** A header that is not forwarded contributes nothing in front of others. */
  lemma DroppedInFront(h: Header, rest: seq<Header>)
    requires !Forwarded(h)
    ensures ForwardedHeaders([h] + rest) == ForwardedHeaders(rest)
  {
    ForwardedHeadersKeepOrder([h], rest, h);
  }

  lemma SplitFive(e: Header, l: Header, t: Header, c: Header, k: Header)
    ensures [k] + [] == [k] && [c] + [k] == [c, k] && [t] + [c, k] == [t, c, k]
    ensures [l] + [t, c, k] == [l, t, c, k] && [e] + [l, t, c, k] == [e, l, t, c, k]
  {
  }

  /** The filter ignores case: each excluded name is dropped however it is
      capitalised, and "Content-Type" is kept. */
  lemma ForwardedHeadersIgnoreCase(v: string)
    ensures ForwardedHeaders([("Content-Encoding", v), ("Content-Length", v), ("Transfer-Encoding", v),
                              ("CONNECTION", v), ("Content-Type", v)]) == [("Content-Type", v)]
  {
    var e, l, t, c, k := ("Content-Encoding", v), ("Content-Length", v), ("Transfer-Encoding", v),
                         ("CONNECTION", v), ("Content-Type", v);
    LowerHeaderNames();
    ForwardedHeadersKeepOrder([k], [], k);
    DroppedInFront(c, [k]);
    DroppedInFront(t, [c, k]);
    DroppedInFront(l, [t, c, k]);
    DroppedInFront(e, [l, t, c, k]);
    SplitFive(e, l, t, c, k);
  }

  /** What `requests.get` produced: an exception, or a response. */
  datatype Fetch = RequestFailed | Fetched(status: int, headers: seq<Header>, content: seq<bv8>)

  datatype ProxyReply = NotFound404 | Error500 | Relay(status: int, headers: seq<Header>, content: seq<bv8>)

  /** `raise_for_status` raises for the 4xx and 5xx status codes; the
      exception is a `RequestException` and ends in a 500 reply. */
  predicate RaisesForStatus(status: int)
    ensures 200 <= status < 400 ==> !RaisesForStatus(status)
    ensures status == 404 || status == 500 ==> RaisesForStatus(status)
  {
    400 <= status < 600
  }

  class Editor {
    /** The persisted record, `tv_links.json`. */
    var links: Dict

    ghost predicate Valid()
      reads this
    {
      links.Valid()
    }

    /** Import of the module: a missing record is seeded with the defaults. */
    constructor (file: Option<Dict>)
      requires file.Some? ==> file.value.Valid()
      ensures Valid()
      ensures links == if file.Some? then file.value else DefaultLinks()
    {
      links := if file.Some? then file.value else DefaultLinks();
    }

    /** `POST /update_links`: no validation, the key set never changes. */
    method UpdateLinks(form: map<string, string>)
      requires Valid()
      modifies this
      ensures Valid()
      ensures links == Overwritten(old(links), form)
    {
      var loaded := links;
      links := Overwrite(loaded, form);  // save_links
    }

    /** `GET /proxy/<id>`: 404 for an unknown id or an empty URL, before any
        fetch; otherwise the fetch of the stored URL decides. */
    function Proxy(tvId: string, fetch: string -> Fetch): (r: ProxyReply)
      reads this
      ensures r.NotFound404? <==> tvId !in links.values || links.values[tvId] == ""
      ensures r.Error500? <==>
        tvId in links.values && links.values[tvId] != "" &&
        (fetch(links.values[tvId]).RequestFailed? || RaisesForStatus(fetch(links.values[tvId]).status))
      ensures r.Relay? ==>
        var resp := fetch(links.values[tvId]);
        resp.Fetched? && r.status == resp.status && !RaisesForStatus(r.status) &&
        r.headers == ForwardedHeaders(resp.headers) && r.content == resp.content
    {
      var targetUrl := Get(links.values, tvId);
      if targetUrl.None? || targetUrl.value == "" then NotFound404
      else
        match fetch(targetUrl.value)
        case RequestFailed => Error500
        case Fetched(status, headers, content) =>
          if RaisesForStatus(status) then Error500
          else Relay(status, ForwardedHeaders(headers), content)
    }

    /** The proxy consults the fetch only at the stored URL: two fetches that
        agree there, or any two fetches when the answer is 404, give the same
        reply. */
    lemma ProxyFetchesOnlyTarget(tvId: string, f: string -> Fetch, g: string -> Fetch)
      requires tvId in links.values && links.values[tvId] != "" ==>
        f(links.values[tvId]) == g(links.values[tvId])
      ensures Proxy(tvId, f) == Proxy(tvId, g)
    {
    }
  }
}
