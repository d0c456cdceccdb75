/** A run of the image cache in which an iterator to a place is used after a place was inserted. */
module ImagePlaces {
  import opened ImageCache

  function HexDigit(d: nat): char
    requires d < 16
  {
    if d < 10 then '0' + d as char else 'a' + (d - 10) as char
  }

  function Name(n: nat): (s: string)
    requires n < 4096
    ensures |s| == 32
  {
    [HexDigit(n / 256), HexDigit(n / 16 % 16), HexDigit(n % 16)] + seq(29, i => '0')
  }

  lemma NameIs(n: nat)
    requires n < 4096
    ensures IsIdentifier(Name(n)) && Identifier(Name(n)) == Name(n)
  {
    hide Md5.HexOf, Md5.Digest;
  }

  lemma NamesDiffer(m: nat, n: nat)
    requires m < 4096 && n < 4096 && m != n
    ensures Name(m) != Name(n)
  {
    NameDigits(m);
    NameDigits(n);
    hide Name;
    if Name(m) == Name(n) {
      SameDigit(m / 256, n / 256);
      SameDigit(m / 16 % 16, n / 16 % 16);
      SameDigit(m % 16, n % 16);
      hide HexDigit;
      ThreeDigits(m);
      ThreeDigits(n);
    }
  }

  lemma NameDigits(n: nat)
    requires n < 4096
    ensures Name(n)[0] == HexDigit(n / 256) && Name(n)[1] == HexDigit(n / 16 % 16) && Name(n)[2] == HexDigit(n % 16)
  {
    hide HexDigit;
  }

  lemma ThreeDigits(n: nat)
    ensures n == 256 * (n / 256) + 16 * (n / 16 % 16) + n % 16
  {
  }

  lemma SameDigit(d: nat, e: nat)
    requires d < 16 && e < 16 && HexDigit(d) == HexDigit(e)
    ensures d == e
  {
  }

  /** The first n names have entries, the oldest in front. */
  ghost predicate Filled(entries: Entries, n: nat)
    requires n <= 4096
  {
    |entries| == n && Holding(entries, n) && NamedOnly(entries, n)
  }

  predicate Holding(entries: Entries, n: nat)
    requires n <= 4096
  {
    forall j :: 0 <= j < n ==> Name(j) in entries && entries[Name(j)] == Bitmap(Real(j), n - 1 - j, false)
  }

  predicate NamedOnly(entries: Entries, n: nat)
    requires n <= 4096
  {
    forall k | k in entries :: exists j :: 0 <= j < n && k == Name(j)
  }

  lemma NotYetNamed(entries: Entries, n: nat)
    requires n < 4096 && NamedOnly(entries, n)
    ensures Name(n) !in entries
  {
    hide Name;
    if Name(n) in entries {
      var j :| 0 <= j < n && Name(n) == Name(j);
      NamesDiffer(j, n);
    }
  }

  lemma OneMoreFilled(was: Entries, now: Entries, n: nat)
    requires n < 4096 && Filled(was, n) && now.Keys == was.Keys + {Name(n)} && now[Name(n)] == Bitmap(Real(n), 0, false)
    requires forall k | k in now && k != Name(n) :: k in was && now[k] == was[k].(age := was[k].age + 1)
    ensures Filled(now, n + 1)
  {
    hide Name, Holding, NamedOnly;
    NotYetNamed(was, n);
    assert |now| == |now.Keys| && |was| == |was.Keys|;
    OneMoreHolding(was, now, n);
    OneMoreNamed(was, now, n);
  }

  lemma OneMoreHolding(was: Entries, now: Entries, n: nat)
    requires n < 4096 && Holding(was, n) && now.Keys == was.Keys + {Name(n)} && now[Name(n)] == Bitmap(Real(n), 0, false)
    requires forall k | k in now && k != Name(n) :: k in was && now[k] == was[k].(age := was[k].age + 1)
    ensures Holding(now, n + 1)
  {
    hide Name;
    forall j | 0 <= j < n + 1
      ensures Name(j) in now && now[Name(j)] == Bitmap(Real(j), n - j, false)
    {
      if j < n {
        NamesDiffer(j, n);
      }
    }
  }

  lemma OneMoreNamed(was: Entries, now: Entries, n: nat)
    requires n < 4096 && NamedOnly(was, n) && now.Keys == was.Keys + {Name(n)}
    ensures NamedOnly(now, n + 1)
  {
    hide Name;
    forall k | k in now
      ensures exists j :: 0 <= j < n + 1 && k == Name(j)
    {
      if k in was {
        var j :| 0 <= j < n && k == Name(j);
      }
    }
  }

  lemma OldestFilled(entries: Entries, places: map<string, Place>, n: nat, id: string)
    requires 256 < n < 4096 && Filled(entries, n) && id == Name(n) && places.Keys == {id}
    ensures MustInsert(entries, places) && id !in entries
  {
    hide Name;
    NotYetNamed(entries, n);
    assert LeastRecent(entries, Name(0)) by {
      assert Name(0) in entries;
      forall k | k in entries
        ensures entries[k].age <= n - 1
      {
        var j :| 0 <= j < n && k == Name(j);
      }
    }
  }

  /** 257 images are set for resources without a place; SetImage does not ask for one. */
  method SetWithoutPlaces() returns (c: AvatarCache)
    ensures fresh(c) && c.Valid() && c.places == map[] && Filled(c.entries, 257)
  {
    hide *;
    c := new AvatarCache();
    EmptyFilled();
    for i := 0 to 257
      invariant fresh(c) && c.Valid() && c.places == map[] && Filled(c.entries, i) && c.handed == Numbers(i)
    {
      ghost var was := c.entries;
      NameIs(i);
      FilledSize(was, i, c.places);
      c.SetImage(Name(i), Real(i), false);
      OneMoreKey(was, c.entries, Name(i));
      OneMoreFilled(was, c.entries, i);
    }
  }

  /** One more lookup then uses a stale iterator. */
  method StaleIterator() returns (c: AvatarCache, ghost stale: bool)
    ensures fresh(c) && c.Valid() && stale
  {
    hide *;
    c := SetWithoutPlaces();
    NameIs(257);
    var id := c.AddImagePlace(Name(257), Place("avatars", "u"));
    OldestFilled(c.entries, c.places, 257, id);
    AsksThere(c, id);
    var image, hasAlpha, request;
    image, hasAlpha, request, stale := c.GetImageSpecial(id, NoFile);
  }

  function Numbers(n: nat): (r: set<nat>)
    ensures forall i: nat :: i in r <==> i < n
  {
    if n == 0 then {} else Numbers(n - 1) + {n - 1}
  }

  lemma AsksThere(c: AvatarCache, id: string)
    requires id !in c.entries && id in c.places
    ensures c.Asks(id, NoFile)
  {
  }

  lemma EmptyFilled()
    ensures Filled(map[], 0) && Numbers(0) == {} && MAX_BITMAPS_KEEP_LOADED == 256
  {
  }

  lemma FilledSize(entries: Entries, n: nat, places: map<string, Place>)
    requires n <= MAX_BITMAPS_KEEP_LOADED && Filled(entries, n)
    ensures |entries| <= MAX_BITMAPS_KEEP_LOADED && MustKeep(entries, places) && n !in Numbers(n) && Numbers(n) + {n} == Numbers(n + 1)
  {
  }

  lemma OneMoreKey(was: Entries, now: Entries, id: string)
    requires was.Keys <= now.Keys && id in now && forall k | k in now && k != id :: k in was
    ensures now.Keys == was.Keys + {id}
  {
  }
}
