/** `ClientImages` (`frontend/app.js`): the client's cache of item images. After an action
    the server may answer with items that carry no image; the client remembers every image
    it has seen for the current round and puts it back. */
module ClientImages {
  import opened Results
  import opened Schemas

  /** `it.image_data` is truthy: present and not the empty string. */
  predicate HasImage(it: ItemOut) {
    it.imageData.Some? && it.imageData.value != ""
  }

  /** The identifiers of the items in `items` that carry an image. */
  function ImageIds(items: seq<ItemOut>): set<Id> {
    set k | 0 <= k < |items| && HasImage(items[k]) :: items[k].id
  }

  lemma ImageIdsSnoc(items: seq<ItemOut>)
    requires items != []
    ensures var last := items[|items| - 1];
            ImageIds(items) == ImageIds(items[..|items| - 1]) + (if HasImage(last) then {last.id} else {})
  {
    var n := |items| - 1;
    var init := items[..n];
    assert forall k | 0 <= k < n :: init[k] == items[k];
    forall id | id in ImageIds(items) ensures id in ImageIds(init) || (HasImage(items[n]) && id == items[n].id) {
      var k :| 0 <= k < |items| && HasImage(items[k]) && items[k].id == id;
      if k < n { assert items[k] == init[k]; }
    }
    forall id | id in ImageIds(init) ensures id in ImageIds(items) {
      var k :| 0 <= k < n && HasImage(init[k]) && init[k].id == id;
      assert items[k] == init[k];
    }
  }

  /** No cached image is the empty string. */
  predicate NonEmptyValues(cache: map<Id, string>) {
    forall id | id in cache :: cache[id] != ""
  }

  /** The cache after the loop that remembers the images of `items`, in order, starting
      from `cache`: a later image of the same item replaces an earlier one. */
  function Remember(cache: map<Id, string>, items: seq<ItemOut>): (m: map<Id, string>)
    ensures m.Keys == cache.Keys + ImageIds(items)
    ensures NonEmptyValues(cache) ==> NonEmptyValues(m)
    ensures forall id | id in cache && id !in ImageIds(items) :: m[id] == cache[id]
  {
    if items == [] then cache
    else
      ImageIdsSnoc(items);
      var last := items[|items| - 1];
      var m := Remember(cache, items[..|items| - 1]);
      if HasImage(last) then m[last.id := last.imageData.value] else m
  }

  /** One more step of the loop. */
  lemma RememberSnoc(cache: map<Id, string>, items: seq<ItemOut>, it: ItemOut)
    ensures Remember(cache, items + [it]) ==
              if HasImage(it) then Remember(cache, items)[it.id := it.imageData.value] else Remember(cache, items)
  {
    assert (items + [it])[..|items|] == items;
  }

  /** The image the cache holds for an item after the loop is that of the last item with
      its identifier and an image. */
  lemma {:induction false} RememberLast(cache: map<Id, string>, items: seq<ItemOut>, k: nat)
    requires k < |items| && HasImage(items[k])
    requires forall j | k < j < |items| && HasImage(items[j]) :: items[j].id != items[k].id
    ensures items[k].id in Remember(cache, items)
    ensures Remember(cache, items)[items[k].id] == items[k].imageData.value
  {
    var n := |items| - 1;
    var init := items[..n];
    if k < n {
      assert forall j | k < j < n :: init[j] == items[j];
      RememberLast(cache, init, k);
    }
  }

  /** The body of the `map` callback: an item without an image gets the cached one. */
  function Fill(cache: map<Id, string>, it: ItemOut): ItemOut {
    if HasImage(it) then it
    else if it.id in cache && cache[it.id] != "" then it.(imageData := Some(cache[it.id]))
    else it
  }

  /** Only the image may change: an item that has an image, or that the cache does not
      know, is kept, and one without an image gets the cached image when there is one. */
  lemma FillKeepsItem(cache: map<Id, string>, it: ItemOut)
    ensures Fill(cache, it).(imageData := it.imageData) == it
    ensures HasImage(it) || it.id !in cache ==> Fill(cache, it) == it
    ensures !HasImage(it) && it.id in cache && cache[it.id] != "" ==> HasImage(Fill(cache, it)) && Fill(cache, it).imageData.value == cache[it.id]
  {
  }

  /** `r.items.map(...)`: every item through `Fill`, in order. */
  function FillAll(cache: map<Id, string>, items: seq<ItemOut>): (r: seq<ItemOut>)
    ensures |r| == |items| && forall i | 0 <= i < |items| :: r[i] == Fill(cache, items[i])
  {
    seq(|items|, i requires 0 <= i < |items| => Fill(cache, items[i]))
  }

  /** Putting images back changes nothing but missing images: an item that had one keeps
      it, and every other field of every item stays as the server sent it. */
  lemma FillOnlyAddsImages(cache: map<Id, string>, items: seq<ItemOut>)
    ensures forall i | 0 <= i < |items| ::
              FillAll(cache, items)[i].(imageData := items[i].imageData) == items[i]
    ensures forall i | 0 <= i < |items| && HasImage(items[i]) :: FillAll(cache, items)[i] == items[i]
  {
  }

  /** After a sync every item whose identifier came with an image somewhere in the
      response, or whose image is cached, shows an image. */
  lemma SyncShowsImages(base: map<Id, string>, items: seq<ItemOut>, i: nat)
    requires NonEmptyValues(base) && i < |items|
    requires items[i].id in ImageIds(items) || items[i].id in base
    ensures HasImage(FillAll(Remember(base, items), items)[i])
  {
  }

  /** The client's image cache: the round it belongs to and one image per item. */
  class ImageCache {
    var roundId: Option<Id>
    var images: map<Id, string>

    /** Only truthy images are ever stored. */
    predicate Valid()
      reads this
    {
      NonEmptyValues(images)
    }

    /** `itemImageCacheRoundId = null; itemImageCache = new Map()`. */
    constructor ()
      ensures Valid() && roundId.None? && images == map[]
    {
      roundId := None;
      images := map[];
    }

    /** The reset `setGameSet` does. */
    method Clear()
      modifies this
      ensures Valid() && roundId.None? && images == map[]
    {
      roundId := None;
      images := map[];
    }

    /** `syncRoundItemImages(r, {reset})`: the cache starts over for a new round or on
        request, remembers every image in the response, and the response comes back with
        the remembered images put into the items that lack one. */
    method Sync(r: RoundOut, reset: bool) returns (r2: RoundOut)
      requires Valid()
      modifies this
      ensures Valid()
      ensures roundId == Some(r.id)
      ensures images == Remember(if reset || old(roundId) != Some(r.id) then map[] else old(images), r.items)
      ensures r2 == r.(items := FillAll(images, r.items))
    {
      ghost var base := if reset || roundId != Some(r.id) then map[] else images;
      if reset || roundId != Some(r.id) {
        roundId := Some(r.id);
        images := map[];
      }
      var i := 0;
      while i < |r.items|
        invariant 0 <= i <= |r.items|
        invariant images == Remember(base, r.items[..i])
        invariant NonEmptyValues(images) && roundId == Some(r.id)
      {
        var it := r.items[i];
        assert r.items[..i + 1] == r.items[..i] + [it];
        RememberSnoc(base, r.items[..i], it);
        if it.imageData.Some? && it.imageData.value != "" {
          images := images[it.id := it.imageData.value];
        }
        i := i + 1;
      }
      assert r.items[..|r.items|] == r.items;
      r2 := r.(items := FillAll(images, r.items));
    }
  }
}
