/** What the two Flask link-store services (spreadisplay3/app.py and
    SpreadDisplay/app.py) have in common, as pure logic: the URL check, the
    default record, the all-or-nothing bulk update, the order in which the
    monitor handlers check their requests, and the snapshot lookup. The
    stateful handlers themselves are the `Store` classes of the modules
    SpreadDisplay3 and SpreadDisplay. */
module LinkStore {
  import opened Wrappers
  import opened Seqs
  import opened Text
  import opened Dicts

  const DefaultUrl: string := "https://www.example.com"
  const DefaultIds: seq<string> := ["tv1", "tv2", "tv3", "tv4", "tv5", "tv6"]

  /** `is_valid_url`: an http or https scheme and more than ten characters. */
  predicate IsValidUrl(url: string)
    ensures IsValidUrl(url) ==> |url| >= 11 && url[0] == 'h'
  {
    (HasPrefix(url, "http://") || HasPrefix(url, "https://")) && |url| > 10
  }

  /** The exact threshold: after `http://` at least four more characters are
      needed, after `https://` at least three. */
  lemma IsValidUrlThreshold(rest: string)
    ensures IsValidUrl("http://" + rest) <==> |rest| >= 4
    ensures IsValidUrl("https://" + rest) <==> |rest| >= 3
  {
    assert ("http://" + rest)[..7] == "http://";
    assert ("https://" + rest)[..8] == "https://";
  }

  /** A string without either scheme prefix is never valid, whatever its
      length, and neither is one of ten characters or fewer. */
  lemma IsValidUrlNeedsScheme(url: string)
    requires (!HasPrefix(url, "http://") && !HasPrefix(url, "https://")) || |url| <= 10
    ensures !IsValidUrl(url)
  {
  }

  /** The boundary cases: "https://a.b" has eleven characters and passes. */
  lemma IsValidUrlExamples()
    ensures !IsValidUrl("ftp://x.com")
    ensures !IsValidUrl("http://a.b")
    ensures IsValidUrl("https://a.b")
    ensures IsValidUrl(DefaultUrl)
  {
    IsValidUrlThreshold("a.b");
    assert "http://a.b" == "http://" + "a.b";
    assert "https://a.b" == "https://" + "a.b";
    DefaultUrlIsValid();
    assert "ftp://x.com"[..7][0] == 'f';
    assert "ftp://x.com"[..8][0] == 'f';
  }

  lemma DefaultUrlIsValid()
    ensures IsValidUrl(DefaultUrl)
  {
    assert DefaultUrl == "https://" + "www.example.com";
    IsValidUrlThreshold("www.example.com");
  }

  lemma DefaultIdsDistinct()
    ensures Distinct(DefaultIds)
  {
    forall i, j | 0 <= i < j < |DefaultIds|
      ensures DefaultIds[i] != DefaultIds[j]
    {
      assert DefaultIds[i][2] != DefaultIds[j][2];
    }
  }

  /** A record over the default ids is well formed once its values have
      exactly those keys. */
  lemma OnDefaultIds(values: map<string, string>)
    requires values.Keys == {"tv1", "tv2", "tv3", "tv4", "tv5", "tv6"}
    ensures Dict(DefaultIds, values).Valid()
  {
    DefaultIdsDistinct();
  }

  /** The record written on first use and by a reset: `tv1`..`tv6`, each
      mapped to the placeholder URL, which itself passes the URL check. */
  function DefaultLinks(): (d: Dict)
    ensures d.Valid()
    ensures d.keys == DefaultIds
    ensures forall k :: k in d.values ==> d.values[k] == DefaultUrl && IsValidUrl(d.values[k])
  {
    DefaultUrlIsValid();
    DefaultIdsDistinct();
    Dict(DefaultIds, map["tv1" := DefaultUrl, "tv2" := DefaultUrl, "tv3" := DefaultUrl,
                         "tv4" := DefaultUrl, "tv5" := DefaultUrl, "tv6" := DefaultUrl])
  }

  /** Module start-up: a missing record file is created with the defaults;
      an existing one is what every later load returns. */
  function Seed(file: Option<Dict>): (d: Dict)
    requires file.Some? ==> file.value.Valid()
    ensures d.Valid()
    ensures file.None? ==> d == DefaultLinks()
    ensures file.Some? ==> d == file.value
  {
    match file
    case None => DefaultLinks()
    case Some(existing) => existing
  }

  /** Python truthiness of an optional string: present and not empty. */
  predicate Given(s: Option<string>)
    ensures Given(s) <==> s.Some? && |s.value| > 0
  {
    s.Some? && s.value != ""
  }

  // ---------------------------------------------------------------------
  // The bulk update of `update_links`

  /** A stored key whose submitted value is present, non-empty and differs
      from the stored value: the only values `update_links` looks at. */
  predicate Changed(d: Dict, form: map<string, string>, k: string)
    ensures Changed(d, form, k) <==>
      k in d.values && Get(form, k).Some? && Get(form, k).value != "" && Get(form, k).value != d.values[k]
  {
    k in d.values && k in form && form[k] != "" && form[k] != d.values[k]
  }

  /** A changed value that fails the URL check: it aborts the update. */
  predicate Rejects(d: Dict, form: map<string, string>, k: string)
    ensures Rejects(d, form, k) ==> k in form && form[k] != "" && !IsValidUrl(form[k])
    ensures Changed(d, form, k) && IsValidUrl(form[k]) ==> !Rejects(d, form, k)
  {
    Changed(d, form, k) && !IsValidUrl(form[k])
  }

  /** `k` is the first key, in dictionary order, whose value is rejected. */
  ghost predicate FirstRejected(d: Dict, form: map<string, string>, k: string) {
    exists i :: 0 <= i < |d.keys| && d.keys[i] == k && Rejects(d, form, k) &&
      forall j :: 0 <= j < i ==> !Rejects(d, form, d.keys[j])
  }

  /** The record after a successful update: changed keys take the submitted
      value; every other key, and the key set and order, stay as they were. */
  function Merged(d: Dict, form: map<string, string>): (r: Dict)
    requires d.Valid()
    ensures r.Valid() && r.keys == d.keys && r.values.Keys == d.values.Keys
  {
    Dict(d.keys, map k | k in d.values :: if Changed(d, form, k) then form[k] else d.values[k])
  }

  /** A successful update stores the submitted value of each changed key
      and leaves every other value alone. */
  lemma MergedValues(d: Dict, form: map<string, string>)
    requires d.Valid()
    ensures forall k :: Changed(d, form, k) ==> Merged(d, form).values[k] == form[k]
    ensures forall k :: k in d.values && !Changed(d, form, k) ==> Merged(d, form).values[k] == d.values[k]
  {
  }

  /** The keys a successful update changes. */
  function ChangedKeys(d: Dict, form: map<string, string>): set<string> {
    set k | k in d.values && Changed(d, form, k)
  }

  /** How many keys of `keys` are changed, counted as the loop counts them. */
  function CountChanged(keys: seq<string>, d: Dict, form: map<string, string>): nat {
    if keys == [] then 0
    else CountChanged(keys[..|keys| - 1], d, form)
         + (if Changed(d, form, keys[|keys| - 1]) then 1 else 0)
  }

  /** The count once the loop has handled the first `n` keys. */
  ghost function CountUpTo(d: Dict, form: map<string, string>, n: nat): (c: nat)
    requires n <= |d.keys|
    ensures n == |d.keys| ==> c == CountChanged(d.keys, d, form)
  {
    assert n == |d.keys| ==> d.keys[..n] == d.keys;
    CountChanged(d.keys[..n], d, form)
  }

  /** Over distinct keys the loop's count is the number of changed keys. */
  lemma {:induction false} CountChangedIsCardinality(keys: seq<string>, d: Dict, form: map<string, string>)
    requires Distinct(keys)
    ensures CountChanged(keys, d, form) == |set k | k in keys && Changed(d, form, k)|
  {
    if keys != [] {
      var init, last := keys[..|keys| - 1], keys[|keys| - 1];
      assert keys == init + [last];
      assert Distinct(init);
      CountChangedIsCardinality(init, d, form);
      var before := set k | k in init && Changed(d, form, k);
      var after := set k | k in keys && Changed(d, form, k);
      assert last !in before;
      if Changed(d, form, last) {
        assert after == before + {last};
      } else {
        assert after == before;
      }
    }
  }

  /** Two first rejected keys are the same key: the reported field is determined. */
  lemma FirstRejectedIsUnique(d: Dict, form: map<string, string>, k1: string, k2: string)
    requires d.Valid() && FirstRejected(d, form, k1) && FirstRejected(d, form, k2)
    ensures k1 == k2
  {
    var i1 :| 0 <= i1 < |d.keys| && d.keys[i1] == k1 && Rejects(d, form, k1) &&
      forall j :: 0 <= j < i1 ==> !Rejects(d, form, d.keys[j]);
    var i2 :| 0 <= i2 < |d.keys| && d.keys[i2] == k2 && Rejects(d, form, k2) &&
      forall j :: 0 <= j < i2 ==> !Rejects(d, form, d.keys[j]);
    assert i1 == i2;
  }

  /** A form that changes nothing leaves the record as it was. */
  lemma MergedWithoutChanges(d: Dict, form: map<string, string>)
    requires d.Valid() && ChangedKeys(d, form) == {}
    ensures Merged(d, form) == d
  {
    var r := Merged(d, form);
    forall k | k in d.values
      ensures r.values[k] == d.values[k]
    {
      assert k !in ChangedKeys(d, form);
    }
  }

  /** The record once the loop has handled the first `n` keys. */
  ghost function MergedUpTo(d: Dict, form: map<string, string>, n: nat): (r: Dict)
    requires d.Valid() && n <= |d.keys|
    ensures r.Valid() && r.keys == d.keys && r.values.Keys == d.values.Keys
  {
    if n == 0 then d
    else
      var prev, k := MergedUpTo(d, form, n - 1), d.keys[n - 1];
      if Changed(d, form, k) then Put(prev, k, form[k]) else prev
  }

  /** After `n` keys, a key holds the submitted value exactly when it is one
      of the first `n` and is changed. */
  lemma {:induction false} MergedUpToAt(d: Dict, form: map<string, string>, n: nat, k: string)
    requires d.Valid() && n <= |d.keys| && k in d.values
    ensures MergedUpTo(d, form, n).values[k] ==
      if k in d.keys[..n] && Changed(d, form, k) then form[k] else d.values[k]
  {
    if n > 0 {
      MergedUpToAt(d, form, n - 1, k);
      var last := d.keys[n - 1];
      assert d.keys[..n] == d.keys[..n - 1] + [last];
      assert last !in d.keys[..n - 1];
    }
  }

  lemma MergedUpToEnd(d: Dict, form: map<string, string>)
    requires d.Valid()
    ensures MergedUpTo(d, form, |d.keys|) == Merged(d, form)
  {
    var a, b := MergedUpTo(d, form, |d.keys|), Merged(d, form);
    assert d.keys[..|d.keys|] == d.keys;
    forall k | k in d.values
      ensures a.values[k] == b.values[k]
    {
      MergedUpToAt(d, form, |d.keys|, k);
    }
    assert a.values == b.values;
  }

  /** No key among the first `n` is rejected, stated over the prefix as the
      loop extends it. */
  predicate NoneRejected(d: Dict, form: map<string, string>, n: nat)
    requires n <= |d.keys|
  {
    n == 0 || (NoneRejected(d, form, n - 1) && !Rejects(d, form, d.keys[n - 1]))
  }

  lemma {:induction false} NoneRejectedAll(d: Dict, form: map<string, string>, n: nat)
    requires n <= |d.keys|
    ensures NoneRejected(d, form, n) <==> forall j :: 0 <= j < n ==> !Rejects(d, form, d.keys[j])
  {
    if n > 0 {
      NoneRejectedAll(d, form, n - 1);
    }
  }

  /** One pass of the loop, from the state it keeps after `i` keys. The key
      still holds its loaded value, so the source's test is `Changed`; an
      unchanged key and an accepted change lead to the state after `i + 1`
      keys, and a rejected change is the first rejection. */
  lemma LoopStep(d: Dict, form: map<string, string>, i: nat, links: Dict, count: nat)
    requires d.Valid() && i < |d.keys|
    requires links == MergedUpTo(d, form, i) && NoneRejected(d, form, i)
    requires count == CountUpTo(d, form, i)
    ensures links.Valid() && d.keys[i] in links.values
    ensures var tv := d.keys[i];
      var test := tv in form && form[tv] != "" && form[tv] != links.values[tv];
      && (!test ==>
            links == MergedUpTo(d, form, i + 1) && NoneRejected(d, form, i + 1) &&
            count == CountUpTo(d, form, i + 1))
      && (test && IsValidUrl(form[tv]) ==>
            Put(links, tv, form[tv]) == MergedUpTo(d, form, i + 1) && NoneRejected(d, form, i + 1) &&
            count + 1 == CountUpTo(d, form, i + 1))
      && (test && !IsValidUrl(form[tv]) ==> FirstIndex(d, form, |d.keys|) == i)
  {
    var tv := d.keys[i];
    MergedUpToAt(d, form, i, tv);
    assert d.keys[..i + 1][..i] == d.keys[..i];
    if Rejects(d, form, tv) {
      FirstIndexStays(d, form, i, |d.keys|);
    }
  }

  /** The index of the first rejected key among the first `n`, or `n`
      when there is none. */
  function FirstIndex(d: Dict, form: map<string, string>, n: nat): (f: nat)
    requires n <= |d.keys|
    ensures f <= n
    ensures f == n <==> NoneRejected(d, form, n)
    ensures f < n ==> Rejects(d, form, d.keys[f]) && NoneRejected(d, form, f)
  {
    if n == 0 then 0
    else
      var p := FirstIndex(d, form, n - 1);
      if p < n - 1 then p
      else if Rejects(d, form, d.keys[n - 1]) then n - 1
      else n
  }

  /** Once a rejected key is reached with none before it, the keys after
      it do not move the first rejected index. */
  lemma {:induction false} FirstIndexStays(d: Dict, form: map<string, string>, i: nat, n: nat)
    requires i < n <= |d.keys| && NoneRejected(d, form, i) && Rejects(d, form, d.keys[i])
    ensures FirstIndex(d, form, n) == i
    decreases n
  {
    if n > i + 1 {
      FirstIndexStays(d, form, i, n - 1);
    }
  }

  datatype UpdateResult =
    | Updated(links: Dict, count: nat)
    | InvalidField(field: string, url: string)

  /** What `update_links` arrives at: the first rejected field with its
      value, or the record and count after every key was handled. */
  ghost function Outcome(d: Dict, form: map<string, string>): UpdateResult
    requires d.Valid()
  {
    var f := FirstIndex(d, form, |d.keys|);
    if f == |d.keys| then Updated(MergedUpTo(d, form, |d.keys|), CountChanged(d.keys, d, form))
    else InvalidField(d.keys[f], form[d.keys[f]])
  }

  /** The update succeeds iff no stored key's submitted value is rejected;
      a failure names the first rejected key in key order and its value; a
      success is the merged record with the number of changed keys. */
  lemma OutcomeMeaning(d: Dict, form: map<string, string>)
    requires d.Valid()
    ensures Outcome(d, form).Updated? <==> forall k :: k in d.values ==> !Rejects(d, form, k)
    ensures Outcome(d, form).InvalidField? ==>
      FirstRejected(d, form, Outcome(d, form).field) && Outcome(d, form).url == form[Outcome(d, form).field]
    ensures Outcome(d, form).Updated? ==>
      Outcome(d, form).links == Merged(d, form) && Outcome(d, form).count == |ChangedKeys(d, form)|
  {
    var n := |d.keys|;
    var f := FirstIndex(d, form, n);
    NoneRejectedAll(d, form, n);
    if f == n {
      MergedUpToEnd(d, form);
      forall k | k in d.values
        ensures !Rejects(d, form, k)
      {
        var j :| 0 <= j < n && d.keys[j] == k;
      }
      CountChangedIsCardinality(d.keys, d, form);
      assert (set k | k in d.keys && Changed(d, form, k)) == ChangedKeys(d, form);
    } else {
      NoneRejectedAll(d, form, f);
      assert d.keys[f] in d.values;
    }
  }

  /** The loop of `update_links` over the loaded record: it walks the keys
      in dictionary order, overwrites each changed value that passes the URL
      check and counts it, and stops at the first changed value that fails. */
  method ApplyForm(d: Dict, form: map<string, string>) returns (r: UpdateResult)
    requires d.Valid()
    ensures r == Outcome(d, form)
  {
    var links := d;
    var count := 0;
    var i := 0;
    while i < |d.keys|
      invariant 0 <= i <= |d.keys|
      invariant links == MergedUpTo(d, form, i)
      invariant NoneRejected(d, form, i)
      invariant count == CountUpTo(d, form, i)
    {
      var tv := d.keys[i];
      LoopStep(d, form, i, links, count);
      var newUrl := Get(form, tv);
      if newUrl.Some? && newUrl.value != "" && newUrl.value != links.values[tv] {
        if IsValidUrl(newUrl.value) {
          links := Put(links, tv, newUrl.value);
          count := count + 1;
        } else {
          return InvalidField(tv, newUrl.value);
        }
      }
      i := i + 1;
    }
    return Updated(links, count);
  }

  /** The flash message `update_links` ends with. */
  datatype UpdateFlash =
    | UpdatedLinks(count: nat)
    | NoChanges
    | InvalidUrlFor(field: string, url: string)

  // ---------------------------------------------------------------------
  // The JSON handlers

  datatype Reason = MissingData | SameName | NotFound | AlreadyExists | NameRequired | InvalidUrl | LastMonitor
  /** The `{success, message}` reply; the reason stands for the message. */
  datatype Reply = Done | Refused(reason: Reason)

  /** The order in which `rename_monitor` checks a request. */
  function RenameCheck(d: Dict, oldName: Option<string>, newName: Option<string>): (r: Reply)
    ensures r == Done <==>
      Given(oldName) && Given(newName) && oldName != newName &&
      oldName.value in d.values && newName.value !in d.values
    ensures r == Refused(MissingData) <==> !Given(oldName) || !Given(newName)
    ensures r == Refused(SameName) <==> Given(oldName) && oldName == newName
    ensures r == Refused(NotFound) <==>
      Given(oldName) && Given(newName) && oldName != newName && oldName.value !in d.values
    ensures r == Refused(AlreadyExists) <==>
      Given(oldName) && Given(newName) && oldName != newName &&
      oldName.value in d.values && newName.value in d.values
  {
    if !Given(oldName) || !Given(newName) then Refused(MissingData)
    else if oldName == newName then Refused(SameName)
    else if oldName.value !in d.values then Refused(NotFound)
    else if newName.value in d.values then Refused(AlreadyExists)
    else Done
  }

  /** The order in which `add_monitor` checks a request; an omitted URL is
      the placeholder. */
  function AddCheck(d: Dict, name: Option<string>, url: Option<string>): (r: Reply)
    ensures r == Done <==>
      Given(name) && name.value !in d.values && IsValidUrl(url.GetOr(DefaultUrl))
    ensures url.None? && Given(name) && name.value !in d.values ==> r == Done
    ensures r == Refused(NameRequired) <==> !Given(name)
    ensures r == Refused(AlreadyExists) <==> Given(name) && name.value in d.values
    ensures r == Refused(InvalidUrl) <==>
      Given(name) && name.value !in d.values && !IsValidUrl(url.GetOr(DefaultUrl))
  {
    if !Given(name) then Refused(NameRequired)
    else if name.value in d.values then Refused(AlreadyExists)
    else if !IsValidUrl(url.GetOr(DefaultUrl)) then Refused(InvalidUrl)
    else Done
  }

  /** The order in which `delete_monitor` checks a request: the last entry
      can never be deleted. */
  function DeleteCheck(d: Dict, name: Option<string>): (r: Reply)
    ensures r == Done <==> Given(name) && name.value in d.values && |d.values| > 1
    ensures |d.values| <= 1 ==> r != Done
    ensures r == Refused(NameRequired) <==> !Given(name)
    ensures r == Refused(NotFound) <==> Given(name) && name.value !in d.values
    ensures r == Refused(LastMonitor) <==> Given(name) && name.value in d.values && |d.values| <= 1
  {
    if !Given(name) then Refused(NameRequired)
    else if name.value !in d.values then Refused(NotFound)
    else if |d.values| <= 1 then Refused(LastMonitor)
    else Done
  }

  /** What `/proxy/<id>` answers: the PNG file, or 404 when it does not exist. */
  datatype SnapshotReply = SendPng(id: string) | NotFound404

  /** `POST /api/validate_url`: the verdict of the URL check on the `url`
      field, which defaults to the empty string. The handler touches no
      state, so both services use this function. */
  function ValidateUrl(url: Option<string>): (valid: bool)
    ensures valid <==> url.Some? && IsValidUrl(url.value)
    ensures url.Some? && |url.value| <= 10 ==> !valid
  {
    IsValidUrl(url.GetOr(""))
  }

  /** `GET /proxy/<id>`: the snapshot file of the id if it exists, and a 404
      otherwise. */
  function SnapshotLookup(snaps: set<string>, tvId: string): (r: SnapshotReply)
    ensures r.NotFound404? <==> tvId !in snaps
    ensures r.SendPng? ==> r.id == tvId
  {
    if tvId !in snaps then NotFound404 else SendPng(tvId)
  }
}
