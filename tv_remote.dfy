/** The TV viewer app of tizen/tvapp/js/main.js: it fetches the display ids
    from the link store, shows a button per id and the snapshot of the
    selected id, and the remote's left and right keys cycle through the ids.
    The state is the two globals `tvIds` and `currentTvId`, the address the
    viewer frame shows, and what the links container holds. */
module TvRemote {
  import opened Wrappers
  import opened Seqs
  import opened Dicts

  const ServerIp: string := "10.101.133.192"

  const ProxyPrefix: string := "http://" + ServerIp + ":5000/proxy/"

  /** The `src` of the viewer frame for `tvId`: the proxy route of the
      Flask server, ending in the id, so distinct ids get distinct addresses. */
  function ProxyUrl(tvId: string): (url: string)
    ensures |url| == |ProxyPrefix| + |tvId|
    ensures url[..|ProxyPrefix|] == ProxyPrefix && url[|ProxyPrefix|..] == tvId
  {
    ProxyPrefix + tvId
  }

  lemma ProxyUrlInjective(a: string, b: string)
    requires ProxyUrl(a) == ProxyUrl(b)
    ensures a == b
  {
    assert a == ProxyUrl(a)[|ProxyPrefix|..];
  }

  /** `s.indexOf(x)`: the first index holding `x`, or -1; `null` is never found. */
  function IndexOf(s: seq<string>, x: Option<string>): (i: int)
    ensures -1 <= i < |s|
    ensures i >= 0 ==> x == Some(s[i]) && forall j :: 0 <= j < i ==> Some(s[j]) != x
    ensures i == -1 <==> x.None? || x.value !in s
  {
    if s == [] then -1
    else if x == Some(s[0]) then 0
    else
      var k := IndexOf(s[1..], x);
      if k == -1 then -1 else k + 1
  }

  /** In a sequence without repetitions the index of an element is its position. */
  lemma IndexOfDistinct(s: seq<string>, i: int)
    requires Distinct(s) && 0 <= i < |s|
    ensures IndexOf(s, Some(s[i])) == i
  {
  }

  /** JavaScript's `a % n`: the remainder of the division truncated toward
      zero, which takes the sign of `a`. */
  function JsRem(a: int, n: int): (r: int)
    requires n > 0
    ensures -n < r < n
    ensures a >= 0 ==> r == a % n
    ensures a < 0 ==> r <= 0 && (a - r) % n == 0
  {
    if a >= 0 then a % n
    else
      var m := -a;
      var q := m / n;
      assert m == q * n + m % n;
      assert a + m % n == (-q) * n;
      MultipleHasNoRemainder(-q, n);
      -(m % n)
  }

  lemma {:induction false} ProductSign(d: int, n: int)
    requires n > 0
    ensures d >= 1 ==> d * n >= n
    ensures d <= -1 ==> d * n <= -n
  {
    if d >= 1 {
      assert d * n == (d - 1) * n + n;
    } else if d <= -1 {
      assert d * n == (d + 1) * n - n;
    }
  }

  /** A multiple of `n` leaves no remainder. */
  lemma MultipleHasNoRemainder(q: int, n: int)
    requires n > 0
    ensures (q * n) % n == 0
  {
    var x := q * n;
    var y, e := x / n, x % n;
    assert x == y * n + e;
    assert (q - y) * n == q * n - y * n;
    ProductSign(q - y, n);
  }

  /** The remainder of a dividend in [0, 2n) is the dividend, less n once
      it reaches n. */
  lemma ModBelowTwice(a: int, n: int)
    requires n > 0 && 0 <= a < 2 * n
    ensures a % n == if a < n then a else a - n
  {
    if a >= n {
      assert a == 1 * n + (a - n);
    }
  }

  /** The index ArrowRight selects when `i` is the index of the current id. */
  function RightIndex(i: int, n: int): (j: int)
    requires n > 0 && -1 <= i < n
    ensures 0 <= j < n
  {
    JsRem(i + 1, n)
  }

  /** The index ArrowLeft selects. The dividend is negative only for one id
      and no selection, and then the remainder is zero. */
  function LeftIndex(i: int, n: int): (j: int)
    requires n > 0 && -1 <= i < n
    ensures 0 <= j < n
  {
    JsRem(i - 1 + n, n)
  }

  /** ArrowRight moves one forward, wrapping at the end, and selects the
      first id when nothing is selected. */
  lemma RightIndexMoves(i: int, n: int)
    requires n > 0 && -1 <= i < n
    ensures RightIndex(i, n) == (i + 1) % n
    ensures RightIndex(i, n) == if i == n - 1 then 0 else i + 1
  {
    ModBelowTwice(i + 1, n);
  }

  /** ArrowLeft moves one back, wrapping at the start. With nothing
      selected it lands on the second-to-last id (the first when there is
      only one), not the last. */
  lemma LeftIndexMoves(i: int, n: int)
    requires n > 0 && -1 <= i < n
    ensures i >= 0 ==> LeftIndex(i, n) == (i - 1 + n) % n
    ensures i >= 0 ==> LeftIndex(i, n) == if i == 0 then n - 1 else i - 1
    ensures i == -1 && n >= 2 ==> LeftIndex(i, n) == n - 2
    ensures i == -1 && n == 1 ==> LeftIndex(i, n) == 0
  {
    if i - 1 + n >= 0 {
      ModBelowTwice(i - 1 + n, n);
    }
  }

  /** Left undoes right and right undoes left. */
  lemma LeftRightInverse(i: int, n: int)
    requires n > 0 && 0 <= i < n
    ensures LeftIndex(RightIndex(i, n), n) == i
    ensures RightIndex(LeftIndex(i, n), n) == i
  {
    RightIndexMoves(i, n);
    LeftIndexMoves(i, n);
    LeftIndexMoves(RightIndex(i, n), n);
    RightIndexMoves(LeftIndex(i, n), n);
  }

  /** The id selected after `key` is pressed; `current` when the key is not
      an arrow or there are no ids. */
  function Step(ids: seq<string>, current: Option<string>, key: string): (next: Option<string>)
    ensures (|ids| == 0 || (key != "ArrowRight" && key != "ArrowLeft")) ==> next == current
    ensures |ids| > 0 && (key == "ArrowRight" || key == "ArrowLeft") ==> next.Some? && next.value in ids
  {
    if |ids| == 0 then current
    else if key == "ArrowRight" then Some(ids[RightIndex(IndexOf(ids, current), |ids|)])
    else if key == "ArrowLeft" then Some(ids[LeftIndex(IndexOf(ids, current), |ids|)])
    else current
  }

  /** ArrowRight then ArrowLeft returns to the id selected before, and so
      does ArrowLeft then ArrowRight: the ids are distinct keys. */
  lemma StepRightLeft(ids: seq<string>, id: string)
    requires Distinct(ids) && id in ids
    ensures Step(ids, Step(ids, Some(id), "ArrowRight"), "ArrowLeft") == Some(id)
    ensures Step(ids, Step(ids, Some(id), "ArrowLeft"), "ArrowRight") == Some(id)
  {
    var n, i := |ids|, IndexOf(ids, Some(id));
    var r, l := RightIndex(i, n), LeftIndex(i, n);
    IndexOfDistinct(ids, r);
    IndexOfDistinct(ids, l);
    LeftRightInverse(i, n);
  }

  /** What the links container shows: a button per id, the one labelled
      `active` highlighted, or a message. */
  datatype Container = Buttons(labels: seq<string>, active: Option<string>) | NoLinksMessage | FetchErrorMessage

  /** The container after `loadTv(tvId)`: the button labelled `tvId`, if
      any, is the highlighted one; a message has no buttons to toggle. */
  function Highlight(c: Container, tvId: string): (r: Container)
    ensures c.Buttons? ==> r.Buttons? && r.labels == c.labels
    ensures c.Buttons? ==> (r.active.Some? <==> tvId in c.labels)
    ensures c.Buttons? && r.active.Some? ==> r.active.value == tvId
    ensures !c.Buttons? ==> r == c
  {
    if c.Buttons? then Buttons(c.labels, if tvId in c.labels then Some(tvId) else None) else c
  }

  class TvApp {
    var tvIds: seq<string>
    var currentTvId: Option<string>
    var viewerSrc: string
    var container: Container

    /** The ids are the keys of one JSON object, hence distinct. */
    ghost predicate Valid()
      reads this
    {
      Distinct(tvIds)
    }

    /** Once there are ids, one of them is selected. */
    ghost predicate Selected()
      reads this
    {
      |tvIds| > 0 ==> currentTvId.Some? && currentTvId.value in tvIds
    }

    /** The page as loaded: no ids, nothing selected. */
    constructor ()
      ensures Valid() && Selected()
      ensures tvIds == [] && currentTvId == None && viewerSrc == "" && container == Buttons([], None)
    {
      tvIds := [];
      currentTvId := None;
      viewerSrc := "";
      container := Buttons([], None);
    }

    /** `displayLinks`: the ids become the keys of the fetched object, in
        order, with one button each. */
    method DisplayLinks(links: Dict)
      requires links.Valid()
      modifies this
      ensures Valid()
      ensures tvIds == links.keys && container == Buttons(links.keys, None)
      ensures currentTvId == old(currentTvId) && viewerSrc == old(viewerSrc)
    {
      tvIds := links.keys;
      container := Buttons(links.keys, None);
    }

    /** `loadTv`: selects `tvId`, highlights its button and points the
        viewer at its snapshot. */
    method LoadTv(tvId: string)
      modifies this`currentTvId, this`viewerSrc, this`container
      ensures currentTvId == Some(tvId) && viewerSrc == ProxyUrl(tvId)
      ensures container == Highlight(old(container), tvId)
    {
      currentTvId := Some(tvId);
      container := Highlight(container, tvId);
      viewerSrc := ProxyUrl(tvId);
    }

    /** `fetchLinks`, given what the fetch produced (`None` for a failed
        request, a non-OK status or a body that is not JSON): shows the ids
        and selects the first one. */
    method FetchLinks(response: Option<Dict>)
      requires Valid()
      requires response.Some? ==> response.value.Valid()
      modifies this
      ensures Valid()
      ensures old(Selected()) ==> Selected()
      ensures response.None? ==>
        tvIds == old(tvIds) && currentTvId == old(currentTvId) &&
        viewerSrc == old(viewerSrc) && container == FetchErrorMessage
      ensures response.Some? ==> tvIds == response.value.keys && Selected()
      ensures response.Some? && |tvIds| > 0 ==>
        currentTvId == Some(tvIds[0]) && viewerSrc == ProxyUrl(tvIds[0]) &&
        container == Buttons(tvIds, Some(tvIds[0]))
      ensures response.Some? && |tvIds| == 0 ==>
        currentTvId == old(currentTvId) && viewerSrc == old(viewerSrc) && container == NoLinksMessage
    {
      if response.None? {
        container := FetchErrorMessage;
        return;
      }
      DisplayLinks(response.value);
      if |tvIds| > 0 {
        LoadTv(tvIds[0]);
      } else {
        container := NoLinksMessage;
      }
    }

    /** The keydown handler: the arrows move the selection as `Step`
        says and load it; anything else changes nothing. */
    method KeyDown(key: string)
      requires Valid()
      modifies this
      ensures Valid()
      ensures tvIds == old(tvIds)
      ensures currentTvId == Step(old(tvIds), old(currentTvId), key)
      ensures |tvIds| > 0 && (key == "ArrowRight" || key == "ArrowLeft") ==>
        viewerSrc == ProxyUrl(currentTvId.value) && container == Highlight(old(container), currentTvId.value)
      ensures !(|tvIds| > 0 && (key == "ArrowRight" || key == "ArrowLeft")) ==>
        viewerSrc == old(viewerSrc) && container == old(container)
      ensures old(Selected()) ==> Selected()
    {
      if |tvIds| == 0 {
        return;
      }
      var n := |tvIds|;
      var currentIndex := IndexOf(tvIds, currentTvId);
      if key == "ArrowRight" {
        currentIndex := JsRem(currentIndex + 1, n);
        LoadTv(tvIds[currentIndex]);
      } else if key == "ArrowLeft" {
        currentIndex := JsRem(currentIndex - 1 + n, n);
        LoadTv(tvIds[currentIndex]);
      }
    }
  }
}
