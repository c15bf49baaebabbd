/** The link store of SpreadDisplay/app.py, the variant without the Grafana
    login: the same record, snapshot set and handlers as in
    spreadisplay3/app.py, except that a rename whose old id has no snapshot
    leaves the snapshot directory alone. */
module SpreadDisplay {
  import opened Wrappers
  import opened Seqs
  import opened Dicts
  import opened LinkStore

  class Store {
    /** The persisted record, `tv_links.json`. */
    var links: Dict
    /** The ids whose `snapshots/<id>.png` exists. */
    var snaps: set<string>

    ghost predicate Valid()
      reads this
    {
      links.Valid()
    }

    /** Import of the module: a missing record is seeded with the defaults
        and a missing snapshot directory is created empty. */
    constructor (file: Option<Dict>, snapshotDir: Option<set<string>>)
      requires file.Some? ==> file.value.Valid()
      ensures Valid()
      ensures links == Seed(file)
      ensures snaps == snapshotDir.GetOr({})
    {
      links := Seed(file);
      snaps := snapshotDir.GetOr({});
    }

    /** `POST /update_links`: the first changed value that fails the URL
        check aborts before anything is saved; otherwise every changed value
        is stored and counted. */
    method UpdateLinks(form: map<string, string>) returns (flash: UpdateFlash)
      requires Valid()
      modifies this
      ensures Valid() && snaps == old(snaps)
      ensures flash.InvalidUrlFor? <==> exists k :: k in old(links).values && Rejects(old(links), form, k)
      ensures flash.InvalidUrlFor? ==>
        links == old(links) &&
        FirstRejected(old(links), form, flash.field) && flash.url == form[flash.field]
      ensures !flash.InvalidUrlFor? ==> links == Merged(old(links), form)
      ensures flash.UpdatedLinks? ==> flash.count == |ChangedKeys(old(links), form)| > 0
      ensures flash.NoChanges? ==> ChangedKeys(old(links), form) == {} && links == old(links)
    {
      var loaded := links;
      var result := ApplyForm(loaded, form);
      OutcomeMeaning(loaded, form);
      match result
      case InvalidField(field, url) =>
        flash := InvalidUrlFor(field, url);
      case Updated(updated, count) =>
        links := updated;  // save_links
        if count > 0 {
          flash := UpdatedLinks(count);
        } else {
          MergedWithoutChanges(loaded, form);
          flash := NoChanges;
        }
    }

    /** `POST /rename_monitor`. The value moves to the new id, which goes last
        in the key order; a snapshot of the old id is renamed, and when there
        is none the snapshot directory is left as it is. */
    method RenameMonitor(oldName: Option<string>, newName: Option<string>) returns (reply: Reply)
      requires Valid()
      modifies this
      ensures Valid()
      ensures reply == RenameCheck(old(links), oldName, newName)
      ensures reply.Refused? ==> links == old(links) && snaps == old(snaps)
      ensures reply == Done ==>
        var o, n := oldName.value, newName.value;
        && links.values == old(links).values[n := old(links).values[o]] - {o}
        && links.keys == Without(old(links).keys, o) + [n]
        && |links.values| == |old(links).values|
        && snaps == if o in old(snaps) then old(snaps) - {o} + {n} else old(snaps)
    {
      if !Given(oldName) || !Given(newName) {
        return Refused(MissingData);
      }
      var o, n := oldName.value, newName.value;
      if o == n {
        return Refused(SameName);
      }
      var loaded := links;
      if o !in loaded.values {
        return Refused(NotFound);
      }
      if n in loaded.values {
        return Refused(AlreadyExists);
      }
      links := Move(loaded, o, n);  // save_links
      if o in snaps {
        snaps := snaps - {o} + {n};  // os.rename
      }
      return Done;
    }

    /** `POST /add_monitor`: one new entry, last in the key order, with the
        given URL or the placeholder; snapshots are not touched. */
    method AddMonitor(name: Option<string>, url: Option<string>) returns (reply: Reply)
      requires Valid()
      modifies this
      ensures Valid() && snaps == old(snaps)
      ensures reply == AddCheck(old(links), name, url)
      ensures reply.Refused? ==> links == old(links)
      ensures reply == Done ==>
        && links.keys == old(links).keys + [name.value]
        && links.values == old(links).values[name.value := url.GetOr(DefaultUrl)]
        && |links.values| == |old(links).values| + 1
    {
      var monitorUrl := url.GetOr(DefaultUrl);
      if !Given(name) {
        return Refused(NameRequired);
      }
      var loaded := links;
      if name.value in loaded.values {
        return Refused(AlreadyExists);
      }
      if !IsValidUrl(monitorUrl) {
        return Refused(InvalidUrl);
      }
      links := Put(loaded, name.value, monitorUrl);  // save_links
      return Done;
    }

    /** `POST /delete_monitor`: removes the entry and its snapshot, never the
        last entry. */
    method DeleteMonitor(name: Option<string>) returns (reply: Reply)
      requires Valid()
      modifies this
      ensures Valid()
      ensures reply == DeleteCheck(old(links), name)
      ensures reply.Refused? ==> links == old(links) && snaps == old(snaps)
      ensures reply == Done ==>
        && links.values == old(links).values - {name.value}
        && links.keys == Without(old(links).keys, name.value)
        && snaps == old(snaps) - {name.value}
      ensures |old(links).values| > 0 ==> |links.values| > 0
    {
      if !Given(name) {
        return Refused(NameRequired);
      }
      var loaded := links;
      if name.value !in loaded.values {
        return Refused(NotFound);
      }
      if |loaded.values| <= 1 {
        return Refused(LastMonitor);
      }
      links := Del(loaded, name.value);  // save_links
      RemoveSnapshot(name.value);
      return Done;
    }

    /** The snapshot part of a successful delete: `<id>.png` is removed if
        it exists. */
    method RemoveSnapshot(id: string)
      modifies this`snaps
      ensures snaps == old(snaps) - {id}
    {
      if id in snaps {
        snaps := snaps - {id};  // os.remove
      }
    }

    /** `POST /reset_links`: the defaults, whatever was stored before. */
    method ResetLinks()
      requires Valid()
      modifies this
      ensures Valid()
      ensures links == DefaultLinks() && snaps == old(snaps)
    {
      links := DefaultLinks();
    }

    /** `GET /proxy/<id>`: serves the snapshot file if it exists. It reads
        only the snapshot directory, never the record. */
    function Proxy(tvId: string): (r: SnapshotReply)
      reads this`snaps
      ensures r.NotFound404? <==> tvId !in snaps
      ensures r.SendPng? ==> r.id == tvId
    {
      SnapshotLookup(snaps, tvId)
    }
  }
}
