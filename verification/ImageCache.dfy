/** The image cache: identifiers and their memo, entries that age, eviction of the least recently
    used, and who owns and deletes an image. */
module ImageCache {
  import opened Bytes
  import Md5

  const MAX_BITMAPS_KEEP_LOADED := 256

  /** An image handle: none, one of the shared ones, or one that has an owner. */
  datatype Image = Null | Loading | ErrorImage | Default | Real(n: nat)

  datatype Bitmap = Bitmap(image: Image, age: nat, hasAlpha: bool)

  /** Where an image can be fetched; the default says nowhere. */
  datatype Place = Place(place: string, url: string)

  /** What the disk has under an identifier. */
  datatype File = NoFile | Unreadable | Undecodable | Picture(n: nat, alpha: bool)

  // ----- identifiers -----

  predicate IsHexLower(c: char) { '0' <= c <= '9' || 'a' <= c <= 'f' }

  predicate IsIdentifier(s: string) { |s| == 32 && forall i :: 0 <= i < |s| ==> IsHexLower(s[i]) }

  function BytesOf(s: string): (r: seq<byte>)
    ensures |r| == |s|
  {
    if s == "" then [] else BytesOf(s[..|s| - 1]) + [s[|s| - 1] as int % 256]
  }

  /** The identifier of a resource, without the memo. */
  function Identifier(resource: string): string {
    if IsIdentifier(resource) then resource else Md5.HexOf(Md5.Digest(BytesOf(resource)))
  }

  lemma {:induction false} HexIsLower(s: seq<byte>)
    ensures |Md5.HexOf(s)| == 2 * |s| && forall i :: 0 <= i < |Md5.HexOf(s)| ==> IsHexLower(Md5.HexOf(s)[i])
  {
    if s != [] {
      HexIsLower(s[..|s| - 1]);
    }
  }

  /** An identifier is one, and is its own identifier. */
  lemma IdentifierIs(resource: string)
    ensures IsIdentifier(Identifier(resource)) && Identifier(Identifier(resource)) == Identifier(resource)
  {
    hide Md5.Digest, Md5.HexOf;
    HexIsLower(Md5.Digest(BytesOf(resource)));
    assert |Md5.Digest(BytesOf(resource))| == 16 by { DigestLength(BytesOf(resource)); }
  }

  /** A text of 32 digits in lower case is its own identifier; of any other text it is the MD5 digest in
      hexadecimal. */
  lemma IdentifierForm(resource: string)
    ensures |resource| == 32 && (forall c | c in resource :: c in "0123456789abcdef") ==> Identifier(resource) == resource
    ensures |resource| != 32 || (exists c | c in resource :: c !in "0123456789abcdef") ==>
      Identifier(resource) == Md5.HexOf(Md5.Digest(BytesOf(resource)))
    ensures |BytesOf(resource)| == |resource| && forall i :: 0 <= i < |resource| ==> BytesOf(resource)[i] == resource[i] as int % 256
  {
    hide Md5.HexOf, Md5.Digest;
    forall c | c in resource
      ensures IsHexLower(c) <==> c in "0123456789abcdef"
    {
      LowerDigit(c);
    }
    if |resource| == 32 && forall c | c in resource :: c in "0123456789abcdef" {
      assert forall i :: 0 <= i < |resource| ==> resource[i] in resource;
    }
    if |resource| == 32 && exists c | c in resource :: c !in "0123456789abcdef" {
      var c :| c in resource && c !in "0123456789abcdef";
      var i :| 0 <= i < |resource| && resource[i] == c;
    }
    BytesAre(resource);
  }

  lemma LowerDigit(c: char)
    ensures IsHexLower(c) <==> c in "0123456789abcdef"
  {
    if IsHexLower(c) {
      var d := if c <= '9' then c as int - '0' as int else c as int - 'a' as int + 10;
      assert "0123456789abcdef"[d] == c;
    }
  }

  lemma {:induction false} BytesAre(s: string)
    ensures forall i :: 0 <= i < |s| ==> BytesOf(s)[i] == s[i] as int % 256
  {
    if s != "" {
      BytesAre(s[..|s| - 1]);
    }
  }

  lemma DigestLength(s: seq<byte>)
    ensures |Md5.Digest(s)| == 16
  {
    hide Md5.Blocks, Md5.Padded, LittleEndian;
  }

  // ----- entries -----

  type Entries = map<string, Bitmap>

  /** Anything but the shared images may be evicted. */
  predicate Evictable(b: Bitmap) { b.image != Default && b.image != ErrorImage && b.image != Loading }

  /** Every entry one tick older. */
  function Aged(entries: Entries): Entries {
    map id | id in entries :: entries[id].(age := entries[id].age + 1)
  }

  /** id may be evicted, and no entry that may be is older. */
  predicate LeastRecent(entries: Entries, id: string) {
    && id in entries && Evictable(entries[id]) && entries[id].age > 0
    && forall k | k in entries && Evictable(entries[k]) :: entries[k].age <= entries[id].age
  }

  /** id, a least recently used entry, is gone and its image deleted. */
  predicate Evicted(was: Entries, id: string, now: Entries, deletedBefore: set<nat>, deletedNow: set<nat>) {
    && LeastRecent(was, id) && now == was - {id}
    && deletedNow == if was[id].image.Real? then deletedBefore + {was[id].image.n} else deletedBefore
  }

  /** Where an entry is fetched; inserting a place gives it the default one. */
  function UrlOf(places: map<string, Place>, id: string): string { if id in places then places[id].url else "" }

  /** What may be evicted, and what an eviction does, in full. */
  lemma EvictionForm(was: Entries, id: string, now: Entries, deletedBefore: set<nat>, deletedNow: set<nat>)
    requires Evicted(was, id, now, deletedBefore, deletedNow)
    ensures id in was && was[id].age > 0
    ensures was[id].image != Default && was[id].image != ErrorImage && was[id].image != Loading
    ensures forall k | k in was ::
      was[k].age <= was[id].age || was[k].image == Default || was[k].image == ErrorImage || was[k].image == Loading
    ensures now == was - {id} && deletedNow == deletedBefore + if was[id].image.Real? then {was[id].image.n} else {}
  {
  }

  /** When nothing is left to trim, and what a place looked up is. */
  lemma TrimForm(entries: Entries, places: map<string, Place>, id: string)
    ensures NothingToTrim(entries) <==> forall k | k in entries ::
      entries[k].age == 0 || entries[k].image == Default || entries[k].image == ErrorImage || entries[k].image == Loading
    ensures id in places ==> Placed(places, id) == places && UrlOf(places, id) == places[id].url
    ensures id !in places ==> Placed(places, id) == places[id := Place("", "")] && UrlOf(places, id) == ""
  {
  }

  /** How many entries make room necessary, and which of them decide what happens to the places. */
  lemma RoomForm(entries: Entries, places: map<string, Place>)
    ensures MustKeep(entries, places) <==>
      |entries| <= 256 || (|entries| == 257 && forall k | LeastRecent(entries, k) :: k in places)
    ensures MustInsert(entries, places) <==>
      |entries| > 256 && (exists k :: LeastRecent(entries, k)) && forall k | LeastRecent(entries, k) :: k !in places
  {
  }

  predicate NothingToTrim(entries: Entries) {
    forall k | k in entries && Evictable(entries[k]) :: entries[k].age == 0
  }

  /** What looking a place up with operator[] leaves of the places. */
  function Placed(places: map<string, Place>, id: string): map<string, Place> {
    if id in places then places else places[id := Place("", "")]
  }

  /** Who owns the images handed over so far: one entry each, or nobody once deleted. */
  ghost predicate Owned(entries: Entries, handed: set<nat>, deleted: set<nat>) {
    && deleted <= handed
    && (forall k | k in entries && entries[k].image.Real? :: entries[k].image.n in handed && entries[k].image.n !in deleted)
    && (forall j, k | j in entries && k in entries && j != k && entries[j].image.Real? :: entries[j].image != entries[k].image)
    && (forall n | n in handed :: n in deleted || exists k :: k in entries && entries[k].image == Real(n))
  }

  /** What deleting an entry's image leaves to say of the others. */
  lemma OwnedWithout(entries: Entries, handed: set<nat>, deleted: set<nat>, id: string)
    requires Owned(entries, handed, deleted) && id in entries
    ensures var b := entries[id];
      Owned(entries - {id}, handed, if b.image.Real? then deleted + {b.image.n} else deleted)
  {
    var rest := entries - {id};
    var gone := if entries[id].image.Real? then deleted + {entries[id].image.n} else deleted;
    forall n | n in handed
      ensures n in gone || exists k :: k in rest && rest[k].image == Real(n)
    {
      if n !in gone {
        var k :| k in entries && entries[k].image == Real(n);
        assert k in rest && rest[k].image == Real(n);
      }
    }
  }

  /** A new entry, for an identifier that has none, takes over an image nobody has had. */
  lemma OwnedWith(entries: Entries, handed: set<nat>, deleted: set<nat>, id: string, b: Bitmap)
    requires Owned(entries, handed, deleted) && id !in entries && (b.image.Real? ==> b.image.n !in handed)
    ensures Owned(entries[id := b], if b.image.Real? then handed + {b.image.n} else handed, deleted)
  {
    var more := entries[id := b];
    var taken := if b.image.Real? then handed + {b.image.n} else handed;
    forall n | n in taken
      ensures n in deleted || exists k :: k in more && more[k].image == Real(n)
    {
      if n in handed && n !in deleted {
        var k :| k in entries && entries[k].image == Real(n);
        assert more[k].image == Real(n);
      } else if n !in deleted {
        assert more[id].image == Real(n);
      }
    }
  }

  lemma OwnedAged(entries: Entries, handed: set<nat>, deleted: set<nat>)
    requires Owned(entries, handed, deleted)
    ensures Owned(Aged(entries), handed, deleted)
  {
    forall n | n in handed
      ensures n in deleted || exists k :: k in Aged(entries) && Aged(entries)[k].image == Real(n)
    {
      if n !in deleted {
        var k :| k in entries && entries[k].image == Real(n);
        assert Aged(entries)[k].image == Real(n);
      }
    }
  }

  /** Every age is the number of ticks since the entry was last set or fetched. */
  ghost predicate Timed(entries: Entries, touched: map<string, nat>, ticks: nat) {
    forall k | k in entries :: k in touched && touched[k] <= ticks && entries[k].age == ticks - touched[k]
  }

  // ----- the cache -----

  class AvatarCache {
    var resourceNameToId: map<string, string>
    var entries: Entries
    var places: map<string, Place>
    var loading: set<string>

    /** The images handed to SetImage and those deleted; the ticks so far and when each entry was
        last set or fetched. */
    ghost var handed: set<nat>
    ghost var deleted: set<nat>
    ghost var ticks: nat
    ghost var touched: map<string, nat>

    ghost predicate MemoRight()
      reads `resourceNameToId
    {
      forall r | r in resourceNameToId :: resourceNameToId[r] == "" || resourceNameToId[r] == Identifier(r)
    }

    ghost predicate Books()
      reads `entries, `handed, `deleted, `ticks, `touched
    {
      && (forall k | k in entries :: IsIdentifier(k))
      && Owned(entries, handed, deleted) && Timed(entries, touched, ticks)
    }

    ghost predicate Valid()
      reads this
    {
      MemoRight() && Books()
    }

    constructor ()
      ensures Valid() && entries == map[] && places == map[] && handed == {} && deleted == {}
    {
      resourceNameToId, entries, places, loading := map[], map[], map[], {};
      handed, deleted, ticks, touched := {}, {}, 0, map[];
    }

    /** MakeIdentifier: the memo never says anything but what the plain function says. */
    method MakeIdentifier(resource: string) returns (id: string)
      requires MemoRight()
      modifies this`resourceNameToId
      ensures MemoRight() && id == Identifier(resource) && IsIdentifier(id)
    {
      IdentifierIs(resource);
      hide Identifier, IsIdentifier;
      if resource !in resourceNameToId {
        resourceNameToId := resourceNameToId[resource := ""];
      }
      if resourceNameToId[resource] != "" {
        return resourceNameToId[resource];
      }
      var already := LooksLikeIdentifier(resource);
      if already {
        return resource;
      }
      id := Md5.HexOf(Md5.Digest(BytesOf(resource)));
      resourceNameToId := resourceNameToId[resource := id];
    }

    method LooksLikeIdentifier(resource: string) returns (yes: bool)
      ensures yes <==> IsIdentifier(resource)
      ensures yes ==> Identifier(resource) == resource
      ensures !yes ==> Identifier(resource) == Md5.HexOf(Md5.Digest(BytesOf(resource)))
    {
      hide Md5.HexOf, Md5.Digest;
      if |resource| != 32 {
        return false;
      }
      for i := 0 to |resource|
        invariant forall j :: 0 <= j < i ==> IsHexLower(resource[j])
      {
        if !IsHexLower(resource[i]) {
          return false;
        }
      }
      return true;
    }

    /** DeleteImageIfNeeded: only an image with an owner is deleted, and never a second time. */
    ghost method DeleteImageIfNeeded(image: Image)
      requires image.Real? ==> image.n !in deleted
      modifies this`deleted
      ensures deleted == if image.Real? then old(deleted) + {image.n} else old(deleted)
    {
      if image.Real? {
        assert image.n !in deleted;
        deleted := deleted + {image.n};
      }
    }

    /** Takes an entry out and deletes its image. */
    method Remove(id: string)
      requires Books() && id in entries
      modifies this`entries, this`deleted
      ensures Books() && entries == old(entries) - {id}
      ensures deleted == if old(entries)[id].image.Real? then old(deleted) + {old(entries)[id].image.n} else old(deleted)
    {
      OwnedWithout(entries, handed, deleted, id);
      hide Owned, IsIdentifier;
      NotYetDeleted(id);
      DeleteImageIfNeeded(entries[id].image);
      entries := entries - {id};
    }

    lemma NotYetDeleted(id: string)
      requires Books() && id in entries
      ensures entries[id].image.Real? ==> entries[id].image.n !in deleted
    {
    }

    /** The search of TrimBitmap, in whatever order the table yields its entries. */
    method Oldest() returns (rid: string)
      requires Books()
      ensures if rid != "" then LeastRecent(entries, rid) else NothingToTrim(entries)
    {
      hide Owned, Timed;
      assert forall k | k in entries :: k != "";
      var maxAge := 0;
      rid := "";
      var todo := entries.Keys;
      while todo != {}
        invariant todo <= entries.Keys
        invariant rid != "" ==> rid in entries && Evictable(entries[rid]) && entries[rid].age == maxAge > 0
        invariant rid == "" ==> maxAge == 0
        invariant forall k | k in entries && k !in todo && Evictable(entries[k]) :: entries[k].age <= maxAge
        decreases todo
      {
        var k :| k in todo;
        todo := todo - {k};
        var b := entries[k];
        if maxAge < b.age && b.image != Default && b.image != ErrorImage && b.image != Loading {
          maxAge := b.age;
          rid := k;
        }
      }
    }

    /** TrimBitmap: evicts a least recently used entry, and forgets that it was being loaded; nothing
        is left to trim when it answers no. */
    method TrimBitmap() returns (done: bool)
      requires Books()
      modifies this`entries, this`deleted, this`places, this`loading
      ensures Books()
      ensures !done ==> NothingToTrim(entries) && entries == old(entries) && deleted == old(deleted)
      ensures done ==> exists id ::
        && Evicted(old(entries), id, entries, old(deleted), deleted)
        && loading == old(loading) - {UrlOf(old(places), id)} && places == Placed(old(places), id)
      ensures !done ==> loading == old(loading) && places == old(places)
    {
      hide Books, LeastRecent, NothingToTrim, Evictable;
      var rid := Oldest();
      if rid == "" {
        return false;
      }
      Chosen(rid);
      if rid !in places {
        places := places[rid := Place("", "")];
      }
      var url := places[rid].url;
      assert url == UrlOf(old(places), rid);
      if url in loading {
        loading := loading - {url};
      }
      assert loading == old(loading) - {url};
      Remove(rid);
      assert Evicted(old(entries), rid, entries, old(deleted), deleted);
      return true;
    }

    lemma Chosen(rid: string)
      requires LeastRecent(entries, rid)
      ensures rid in entries && Evictable(entries[rid])
    {
    }

    /** TrimBitmaps: up to count entries, least recently used first. */
    method TrimBitmaps(count: int) returns (trimmed: nat)
      requires Books()
      modifies this`entries, this`deleted, this`places, this`loading
      ensures Books() && |entries| == |old(entries)| - trimmed
      ensures if count < 0 then trimmed == 0 else trimmed <= count && (trimmed < count ==> NothingToTrim(entries))
    {
      hide Books, NothingToTrim;
      if count < 0 {
        return 0;
      }
      trimmed := 0;
      for i := 0 to count
        invariant Books() && trimmed == i && |entries| == |old(entries)| - trimmed
      {
        ghost var was, gone := entries, deleted;
        var ok := TrimBitmap();
        if !ok {
          return;
        }
        OneFewer(was, entries, gone, deleted);
        trimmed := trimmed + 1;
      }
    }

    /** AgeBitmaps: one tick. */
    method AgeBitmaps()
      requires Books()
      modifies this`entries, this`ticks
      ensures Books() && entries == Aged(old(entries)) && ticks == old(ticks) + 1
    {
      OwnedAged(entries, handed, deleted);
      TimedAged(entries, touched, ticks);
      hide Owned, IsIdentifier, Timed;
      AgeEach();
      ticks := ticks + 1;
    }

    method AgeEach()
      modifies this`entries
      ensures entries == Aged(old(entries))
    {
      ghost var was := entries;
      var todo := entries.Keys;
      while todo != {}
        invariant todo <= entries.Keys == was.Keys
        invariant forall k | k in was :: entries[k] == if k in todo then was[k] else was[k].(age := was[k].age + 1)
        decreases todo
      {
        var k :| k in todo;
        todo := todo - {k};
        entries := entries[k := entries[k].(age := entries[k].age + 1)];
      }
    }

    /** Trims until at most 256 entries are left, or nothing can be trimmed. */
    method MakeRoom()
      requires Books()
      modifies this`entries, this`deleted, this`places, this`loading
      ensures Books() && MadeRoom(old(entries), entries, old(places), places)
      ensures |entries| <= 256 || NothingToTrim(entries)
      ensures loading <= old(loading) && (entries == old(entries) ==> loading == old(loading))
    {
      hide Books, NothingToTrim, MadeRoom;
      NoRoomYet(entries, places);
      while |entries| > MAX_BITMAPS_KEEP_LOADED
        invariant Books() && MadeRoom(old(entries), entries, old(places), places)
        invariant loading <= old(loading) && (entries == old(entries) ==> loading == old(loading))
        decreases |entries|
      {
        ghost var was, gone, before, urls := entries, deleted, places, loading;
        var ok := TrimBitmap();
        if !ok {
          break;
        }
        OneFewer(was, entries, gone, deleted);
        MoreRoom(old(entries), was, entries, old(places), before, places, gone, deleted, urls, loading);
      }
    }

    /** The entry of an identifier gets an image; the one it had is deleted. */
    method Put(id: string, image: Image, hasAlpha: bool)
      requires Books() && IsIdentifier(id) && (image.Real? ==> image.n !in handed)
      modifies this`entries, this`deleted, this`handed, this`touched
      ensures Books() && entries == old(entries)[id := Bitmap(image, 0, hasAlpha)]
      ensures handed == if image.Real? then old(handed) + {image.n} else old(handed)
    {
      hide Owned, IsIdentifier;
      ghost var was := entries;
      if id in entries {
        Remove(id);
      }
      OwnedWith(entries, handed, deleted, id, Bitmap(image, 0, hasAlpha));
      entries := entries[id := Bitmap(image, 0, hasAlpha)];
      touched := touched[id := ticks];
      if image.Real? {
        handed := handed + {image.n};
      }
      assert entries == was[id := Bitmap(image, 0, hasAlpha)];
    }

    /** SetImage: makes room, ages every entry, and stores the image under the resource's identifier.
        No more than 257 entries are left, unless every entry that could go was set or fetched since
        the tick before.  A place is inserted exactly if an entry is evicted that has none: never up to
        256 entries, not at 257 if the least recently used have places, and certainly if none of
        them has. */
    method SetImage(resource: string, image: Image, hasAlpha: bool)
      requires Valid() && (image.Real? ==> image.n !in handed)
      modifies this
      ensures Valid() && Identifier(resource) in entries && entries[Identifier(resource)] == Bitmap(image, 0, hasAlpha)
      ensures |entries| <= 257 || forall k | k in entries ::
        entries[k].age <= 1 || entries[k].image == Default || entries[k].image == ErrorImage || entries[k].image == Loading
      ensures handed == if image.Real? then old(handed) + {image.n} else old(handed)
      ensures ticks == old(ticks) + 1
      ensures forall k | k in entries && k != Identifier(resource) ::
        k in old(entries) && entries[k] == old(entries)[k].(age := old(entries)[k].age + 1)
      ensures |old(entries)| <= 256 ==> old(entries).Keys <= entries.Keys
      ensures forall k | k in old(places) :: k in places && places[k] == old(places)[k]
      ensures Identifier(resource) !in old(entries) ==>
        && places.Keys == old(places).Keys + (old(entries).Keys - entries.Keys)
        && (places == old(places) <==> old(entries).Keys - entries.Keys <= old(places).Keys)
      ensures MustKeep(old(entries), old(places)) ==> places == old(places)
      ensures MustInsert(old(entries), old(places)) ==> places != old(places)
      ensures loading <= old(loading) && (|old(entries)| <= 256 ==> loading == old(loading))
    {
      hide Books, MemoRight, Identifier, IsIdentifier, Evictable, MadeRoom, NothingToTrim, MustKeep, MustInsert, Aged;
      var id := MakeIdentifier(resource);
      ghost var was, known := entries, places;
      MakeRoom();
      ghost var left := entries;
      AgeBitmaps();
      Put(id, image, hasAlpha);
      Stored(was, left, entries, known, places, id, Bitmap(image, 0, hasAlpha));
    }

    /** The part of GetImageSpecial that answers from the cache: fetching makes an entry new again. */
    method Fetch(id: string) returns (image: Image, hasAlpha: bool)
      requires Books() && id in entries
      modifies this`entries, this`touched
      ensures Books() && entries == old(entries)[id := old(entries)[id].(age := 0)]
      ensures image == old(entries)[id].image && hasAlpha == old(entries)[id].hasAlpha
    {
      OwnedFetched(entries, handed, deleted, id);
      hide Owned, IsIdentifier;
      image, hasAlpha := entries[id].image, entries[id].hasAlpha;
      entries := entries[id := entries[id].(age := 0)];
      touched := touched[id := ticks];
    }

    /** The lookup goes on to ask for the resource, with an iterator to its place in hand. */
    ghost predicate Asks(id: string, file: File)
      reads `entries, `places
    {
      id !in entries && id in places && (file.NoFile? || file.Undecodable?)
    }

    /** AddImagePlace. */
    method AddImagePlace(resource: string, place: Place) returns (id: string)
      requires Valid()
      modifies this`resourceNameToId, this`places
      ensures Valid() && id == Identifier(resource) && places == old(places)[id := place]
    {
      hide Identifier, IsIdentifier, MemoRight, Books;
      id := MakeIdentifier(resource);
      places := places[id := place];
    }

    /** GetImageSpecial: from the cache, or from the disk, or a placeholder while it is requested;
        whatever it answers is what the cache now holds for the resource, as new.  A resource is
        requested if it has a place and a URL that is not being loaded.  The iterator to the place is
        used behind SetImage: it is stale then exactly if a place has been inserted meanwhile. */
    method GetImageSpecial(resource: string, file: File) returns (image: Image, hasAlpha: bool, request: Option<string>, ghost stale: bool)
      requires Valid() && (file.Picture? ==> file.n !in handed)
      modifies this
      ensures Valid() && Identifier(resource) in entries
      ensures entries[Identifier(resource)] == Bitmap(image, 0, hasAlpha)
      ensures Identifier(resource) in old(entries) ==>
        && image == old(entries)[Identifier(resource)].image && hasAlpha == old(entries)[Identifier(resource)].hasAlpha
        && entries.Keys == old(entries).Keys && handed == old(handed) && deleted == old(deleted)
        && places == old(places) && loading == old(loading)
      ensures Identifier(resource) !in old(entries) ==>
        && image == (if Identifier(resource) !in old(places) then Loading
                     else if file.Picture? then Real(file.n) else if file.Unreadable? then ErrorImage else Loading)
        && (places == old(places) <==> old(entries).Keys - entries.Keys <= old(places).Keys)
      ensures stale <==> old(Asks(Identifier(resource), file)) && places != old(places)
      ensures MustKeep(old(entries), old(places)) ==> !stale
      ensures old(Asks(Identifier(resource), file)) && MustInsert(old(entries), old(places)) ==> stale
      ensures request.Some? ==>
        && old(Asks(Identifier(resource), file)) && old(places)[Identifier(resource)].place != ""
        && request.value == old(places)[Identifier(resource)].url != "" && request.value in loading
        && (|old(entries)| <= 256 ==> request.value !in old(loading))
      ensures request.None? && old(Asks(Identifier(resource), file)) ==>
        var at := old(places)[Identifier(resource)]; at.place == "" || at.url == "" || at.url in old(loading)
      decreases Identifier(resource) !in entries
    {
      hide Books, MemoRight, Identifier, IsIdentifier, Evictable, MustKeep, MustInsert;
      request, stale := None, false;
      var id := MakeIdentifier(resource);
      SameIdentifier(resource);
      if id in entries {
        image, hasAlpha := Fetch(id);
        return;
      }
      var ignored;
      if id !in places {
        SetImage(id, Loading, false);
        image, hasAlpha, ignored, stale := GetImageSpecial(id, NoFile);
        return;
      }
      if file.Unreadable? {
        SetImage(id, ErrorImage, false);
        image, hasAlpha, ignored, stale := GetImageSpecial(id, NoFile);
        return;
      }
      if file.Picture? {
        SetImage(id, Real(file.n), file.alpha);
        image, hasAlpha := Real(file.n), file.alpha;
        return;
      }
      ghost var inserted;
      request, inserted := RequestRemote(id);
      image, hasAlpha, ignored, stale := GetImageSpecial(id, NoFile);
      stale := inserted;
    }

    /** The part of GetImageSpecial that requests the resource, through the iterator to its place. */
    method RequestRemote(id: string) returns (request: Option<string>, ghost stale: bool)
      requires Valid() && Identifier(id) == id && id !in entries && id in places
      modifies this
      ensures Valid() && id in entries && entries[id] == Bitmap(Loading, 0, false)
      ensures places == old(places) <==> old(entries).Keys - entries.Keys <= old(places).Keys
      ensures stale <==> places != old(places)
      ensures MustKeep(old(entries), old(places)) ==> !stale
      ensures MustInsert(old(entries), old(places)) ==> stale
      ensures request.Some? ==>
        && old(places)[id].place != "" && request.value == old(places)[id].url != "" && request.value in loading
        && (|old(entries)| <= 256 ==> request.value !in old(loading))
      ensures request.None? ==> var at := old(places)[id]; at.place == "" || at.url == "" || at.url in old(loading)
    {
      hide Books, MemoRight, Identifier, IsIdentifier, Evictable, MustKeep, MustInsert;
      ghost var iterated := places;
      SetImage(id, Loading, false);
      stale := places != iterated;
      request := None;
      var place := places[id];
      if place.place != "" && place.url != "" && place.url !in loading {
        loading := loading + {place.url};
        request := Some(place.url);
      }
    }

    lemma SameIdentifier(resource: string)
      ensures Identifier(Identifier(resource)) == Identifier(resource)
    {
      IdentifierIs(resource);
    }

    /** EraseBitmap: by identifier. */
    method EraseBitmap(id: string)
      requires Books()
      modifies this`entries, this`deleted
      ensures Books() && entries == old(entries) - {id}
    {
      hide Books;
      if id !in entries {
        assert entries - {id} == entries;
        return;
      }
      Remove(id);
    }

    /** WipeBitmaps: every image that still had an owner has been deleted. */
    method WipeBitmaps()
      requires Books()
      modifies this`entries, this`deleted, this`places
      ensures Books() && entries == map[] && places == map[] && deleted == handed
    {
      var todo := entries.Keys;
      while todo != {}
        invariant Books() && todo == entries.Keys
        decreases todo
      {
        var k :| k in todo;
        todo := todo - {k};
        Remove(k);
      }
      NobodyLeft(entries, handed, deleted);
      places := map[];
    }
  }

  // ----- which places an eviction inserts -----

  /** Entries and places before and after making room. */
  ghost predicate MadeRoom(was: Entries, now: Entries, known: map<string, Place>, places: map<string, Place>) {
    && now.Keys <= was.Keys && (forall k | k in now :: now[k] == was[k])
    && places.Keys == known.Keys + (was.Keys - now.Keys) && (forall k | k in known :: places[k] == known[k])
    && (now != was ==> |was| > MAX_BITMAPS_KEEP_LOADED && exists k :: LeastRecent(was, k) && k !in now)
    && (now != was ==> |now| >= MAX_BITMAPS_KEEP_LOADED)
  }

  /** No place will be inserted: there is room, or there is one entry too many and those that can make
      room have places. */
  ghost predicate MustKeep(entries: Entries, places: map<string, Place>) {
    || |entries| <= MAX_BITMAPS_KEEP_LOADED
    || (|entries| == MAX_BITMAPS_KEEP_LOADED + 1 && forall k | LeastRecent(entries, k) :: k in places)
  }

  /** A place will be inserted: there is no room, and of the entries that go first none has a place. */
  ghost predicate MustInsert(entries: Entries, places: map<string, Place>) {
    && |entries| > MAX_BITMAPS_KEEP_LOADED && (exists k :: LeastRecent(entries, k))
    && forall k | LeastRecent(entries, k) :: k !in places
  }

  lemma NoRoomYet(entries: Entries, places: map<string, Place>)
    ensures MadeRoom(entries, entries, places, places)
  {
  }

  /** One more eviction. */
  lemma MoreRoom(was: Entries, before: Entries, now: Entries, known: map<string, Place>, less: map<string, Place>,
                 places: map<string, Place>, gone: set<nat>, goneNow: set<nat>, urls: set<string>, urlsNow: set<string>)
    requires MadeRoom(was, before, known, less) && |before| > MAX_BITMAPS_KEEP_LOADED
    requires exists id ::
      && Evicted(before, id, now, gone, goneNow) && urlsNow == urls - {UrlOf(less, id)} && places == Placed(less, id)
    ensures MadeRoom(was, now, known, places) && now != was
  {
    var id :| Evicted(before, id, now, gone, goneNow) && urlsNow == urls - {UrlOf(less, id)} && places == Placed(less, id);
    EvictedIs(before, id, now, gone, goneNow);
    OneFewer(before, now, gone, goneNow);
    PlacedKeys(less, id);
    hide *;
    OneMoreOut(was, before, now, known, less, places, id);
  }

  lemma OneMoreOut(was: Entries, before: Entries, now: Entries, known: map<string, Place>, less: map<string, Place>,
                   places: map<string, Place>, id: string)
    requires MadeRoom(was, before, known, less) && |before| > MAX_BITMAPS_KEEP_LOADED
    requires LeastRecent(before, id) && id in before && now.Keys == before.Keys - {id} && |now| == |before| - 1
    requires forall k | k in now :: now[k] == before[k]
    requires places.Keys == less.Keys + {id} && forall k | k in less :: places[k] == less[k]
    ensures MadeRoom(was, now, known, places) && now != was
  {
    hide LeastRecent;
    SubsetSize(before, was);
    var k := FirstOut(was, before, known, less, id);
    KeysOut(was.Keys, before.Keys, now.Keys, known.Keys, less.Keys, places.Keys, id);
  }

  /** The first entry to go was one of the least recently used. */
  lemma FirstOut(was: Entries, before: Entries, known: map<string, Place>, less: map<string, Place>, id: string) returns (k: string)
    requires MadeRoom(was, before, known, less) && LeastRecent(before, id)
    ensures LeastRecent(was, k) && (k == id || k !in before)
  {
    hide LeastRecent;
    k := id;
    if before != was {
      k :| LeastRecent(was, k) && k !in before;
    }
  }

  lemma KeysOut(was: set<string>, before: set<string>, now: set<string>, known: set<string>, less: set<string>, places: set<string>, id: string)
    requires before <= was && id in before && now == before - {id} && less == known + (was - before) && places == less + {id}
    ensures now <= was && places == known + (was - now)
  {
  }

  lemma PlacedKeys(places: map<string, Place>, id: string)
    ensures Placed(places, id).Keys == places.Keys + {id} && forall k | k in places :: Placed(places, id)[k] == places[k]
  {
  }

  lemma EvictedIs(was: Entries, id: string, now: Entries, gone: set<nat>, goneNow: set<nat>)
    requires Evicted(was, id, now, gone, goneNow)
    ensures id in was && id !in now && LeastRecent(was, id) && now.Keys == was.Keys - {id}
  {
  }

  lemma SubsetSize(now: Entries, was: Entries)
    requires now.Keys <= was.Keys
    ensures |now| <= |was|
    ensures |now| == |was| ==> now.Keys == was.Keys
  {
    assert |now| == |now.Keys| && |was| == |was.Keys|;
    assert was.Keys == now.Keys + (was.Keys - now.Keys);
  }

  /** SetImage's last step, seen from its first. */
  lemma Stored(was: Entries, left: Entries, now: Entries, known: map<string, Place>, places: map<string, Place>, id: string, b: Bitmap)
    requires MadeRoom(was, left, known, places) && (|left| <= MAX_BITMAPS_KEEP_LOADED || NothingToTrim(left))
    requires now == Aged(left)[id := b] && b.age == 0
    ensures id in now && now[id] == b
    ensures |now| <= 257 || forall k | k in now ::
      now[k].age <= 1 || now[k].image == Default || now[k].image == ErrorImage || now[k].image == Loading
    ensures forall k | k in now && k != id :: k in was && now[k] == was[k].(age := was[k].age + 1)
    ensures |was| <= 256 ==> left == was && was.Keys <= now.Keys
    ensures forall k | k in known :: k in places && places[k] == known[k]
    ensures id !in was ==>
      && places.Keys == known.Keys + (was.Keys - now.Keys)
      && (places == known <==> was.Keys - now.Keys <= known.Keys)
    ensures MustKeep(was, known) ==> places == known
    ensures MustInsert(was, known) ==> places != known
  {
    RoomMade(was, left, known, places);
    RoomKept(left, id, b);
    hide *;
    AgedOf(left);
    StoredEntries(was, left, now, id, b);
    StoredKeys(was.Keys, left.Keys, now.Keys, id);
  }

  lemma AgedOf(left: Entries)
    ensures Aged(left).Keys == left.Keys && forall k | k in left :: Aged(left)[k] == left[k].(age := left[k].age + 1)
  {
  }

  lemma StoredEntries(was: Entries, left: Entries, now: Entries, id: string, b: Bitmap)
    requires left.Keys <= was.Keys && (forall k | k in left :: left[k] == was[k])
    requires now == Aged(left)[id := b]
    ensures id in now && now[id] == b && now.Keys == left.Keys + {id}
    ensures forall k | k in now && k != id :: k in was && now[k] == was[k].(age := was[k].age + 1)
  {
  }

  lemma StoredKeys(was: set<string>, left: set<string>, now: set<string>, id: string)
    requires left <= was && now == left + {id}
    ensures id !in was ==> was - now == was - left
    ensures left == was ==> was <= now
  {
  }

  /** Exactly when the places are still what they were. */
  lemma RoomMade(was: Entries, now: Entries, known: map<string, Place>, places: map<string, Place>)
    requires MadeRoom(was, now, known, places)
    requires |now| <= MAX_BITMAPS_KEEP_LOADED || NothingToTrim(now)
    ensures now.Keys <= was.Keys && (forall k | k in now :: now[k] == was[k])
    ensures |was| <= 256 ==> now == was
    ensures places.Keys == known.Keys + (was.Keys - now.Keys) && forall k | k in known :: k in places && places[k] == known[k]
    ensures places == known <==> was.Keys - now.Keys <= known.Keys
    ensures MustKeep(was, known) ==> places == known
    ensures MustInsert(was, known) ==> places != known
  {
    if now != was {
      var k :| LeastRecent(was, k) && k !in now;
      assert k in was.Keys - now.Keys;
      SubsetSize(now, was);
      if |was| == MAX_BITMAPS_KEEP_LOADED + 1 {
        assert |was.Keys - now.Keys| == 1;
        forall j | j in was.Keys - now.Keys
          ensures j == k
        {
          assert |was.Keys - now.Keys - {k}| == 0;
        }
      }
    }
  }

  lemma NobodyLeft(entries: Entries, handed: set<nat>, deleted: set<nat>)
    requires entries.Keys == {} && Owned(entries, handed, deleted)
    ensures entries == map[] && deleted == handed
  {
  }

  lemma OwnedFetched(entries: Entries, handed: set<nat>, deleted: set<nat>, id: string)
    requires Owned(entries, handed, deleted) && id in entries
    ensures Owned(entries[id := entries[id].(age := 0)], handed, deleted)
  {
    var now := entries[id := entries[id].(age := 0)];
    forall n | n in handed
      ensures n in deleted || exists k :: k in now && now[k].image == Real(n)
    {
      if n !in deleted {
        var k :| k in entries && entries[k].image == Real(n);
        assert now[k].image == Real(n);
      }
    }
  }

  /** In every state a valid cache can be in, an image that was handed over has exactly one fate: one
      entry holds it, or it has been deleted. */
  lemma OneFate(entries: Entries, handed: set<nat>, deleted: set<nat>, n: nat)
    requires Owned(entries, handed, deleted) && n in handed
    ensures (n in deleted) != (exists k :: k in entries && entries[k].image == Real(n))
    ensures forall j, k | j in entries && k in entries && entries[j].image == Real(n) && entries[k].image == Real(n) :: j == k
  {
  }

  lemma OneFewer(was: Entries, now: Entries, deletedBefore: set<nat>, deletedNow: set<nat>)
    requires exists id :: Evicted(was, id, now, deletedBefore, deletedNow)
    ensures now.Keys <= was.Keys && (forall k | k in now :: now[k] == was[k]) && |now| == |was| - 1
  {
    var id :| Evicted(was, id, now, deletedBefore, deletedNow);
    assert now.Keys == was.Keys - {id};
    assert |now| == |now.Keys| && |was| == |was.Keys|;
  }

  lemma TimedAged(entries: Entries, touched: map<string, nat>, ticks: nat)
    requires Timed(entries, touched, ticks)
    ensures Timed(Aged(entries), touched, ticks + 1)
  {
  }

  /** What making room left, one tick and one entry later. */
  lemma RoomKept(before: Entries, id: string, b: Bitmap)
    requires |before| <= MAX_BITMAPS_KEEP_LOADED || NothingToTrim(before)
    requires b.age == 0
    ensures var now := Aged(before)[id := b];
      |now| <= 257 || forall k | k in now ::
        now[k].age <= 1 || now[k].image == Default || now[k].image == ErrorImage || now[k].image == Loading
  {
    var now := Aged(before)[id := b];
    assert now.Keys == before.Keys + {id};
    assert |now| == |now.Keys| && |before| == |before.Keys|;
  }
}
