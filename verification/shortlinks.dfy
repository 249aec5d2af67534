/** Short links (backend/shortlinks/models.py and views.py, and the `get_link`
    action of the recipe views): an 8-character slug drawn from ASCII letters and
    digits names a recipe. The random draws of `create_slug` are a parameter. */
module ShortLinks {

  import opened Common
  import Schema

  const SlugLength: nat := 8

  /** The `n` consecutive code points from `start`. */
  function Run(start: char, n: nat): (r: string)
    requires start as int + n <= 0xD800
    ensures |r| == n
    ensures forall i :: 0 <= i < n ==> r[i] as int == start as int + i
  {
    if n == 0 then [] else Run(start, n - 1) + [(start as int + n - 1) as char]
  }

  /** `string.ascii_letters + string.digits`: lower case, upper case, then digits. */
  function Alphabet(): (a: string)
    ensures |a| == 62
  {
    Run('a', 26) + Run('A', 26) + Run('0', 10)
  }

  predicate IsAlnum(c: char)
  {
    'a' <= c <= 'z' || 'A' <= c <= 'Z' || '0' <= c <= '9'
  }

  /** Where each character class sits in the alphabet. */
  lemma AlphabetAt(k: nat)
    requires k < 62
    ensures k < 26 ==> Alphabet()[k] as int == 'a' as int + k
    ensures 26 <= k < 52 ==> Alphabet()[k] as int == 'A' as int + (k - 26)
    ensures 52 <= k ==> Alphabet()[k] as int == '0' as int + (k - 52)
  {
    var lower, upper, digits := Run('a', 26), Run('A', 26), Run('0', 10);
    assert Alphabet() == lower + upper + digits;
    if k < 26 {
      assert Alphabet()[k] == lower[k];
    } else if k < 52 {
      assert Alphabet()[k] == upper[k - 26];
    } else {
      assert Alphabet()[k] == digits[k - 52];
    }
  }

  /** The position of an ASCII letter or digit in the alphabet. */
  function IndexOf(c: char): (i: nat)
    requires IsAlnum(c)
    ensures i < 62 && Alphabet()[i] == c
  {
    var i: nat :=
      if 'a' <= c <= 'z' then c as int - 'a' as int
      else if 'A' <= c <= 'Z' then 26 + c as int - 'A' as int
      else 52 + c as int - '0' as int;
    AlphabetAt(i);
    i
  }

  /** Every character of the alphabet is an ASCII letter or digit, and each
      appears once. */
  lemma AlphabetFacts()
    ensures forall i :: 0 <= i < 62 ==> IsAlnum(Alphabet()[i]) && IndexOf(Alphabet()[i]) == i
  {
    forall i | 0 <= i < 62
      ensures IsAlnum(Alphabet()[i]) && IndexOf(Alphabet()[i]) == i
    {
      AlphabetAt(i);
    }
  }

  predicate ValidDraws(draws: seq<nat>)
  {
    |draws| == SlugLength && forall i :: 0 <= i < |draws| ==> draws[i] < 62
  }

  /** `create_slug`, with `random.choices` replaced by the supplied draws: one
      alphabet index per character. */
  function CreateSlug(draws: seq<nat>): (slug: string)
    requires ValidDraws(draws)
    ensures |slug| == SlugLength
    ensures forall i :: 0 <= i < |slug| ==> IsAlnum(slug[i])
    ensures forall i :: 0 <= i < |slug| ==> IndexOf(slug[i]) == draws[i]
  {
    AlphabetFacts();
    seq(SlugLength, i requires 0 <= i < SlugLength => Alphabet()[draws[i]])
  }

  /** Different draws give different slugs. */
  lemma SlugInjective(d1: seq<nat>, d2: seq<nat>)
    requires ValidDraws(d1) && ValidDraws(d2) && CreateSlug(d1) == CreateSlug(d2)
    ensures d1 == d2
  {
    var s := CreateSlug(d1);
    assert forall i :: 0 <= i < SlugLength ==> d1[i] == IndexOf(s[i]) == d2[i];
  }

  /** Every 8-character string of letters and digits can be drawn. */
  lemma EverySlugDrawable(slug: string)
    requires |slug| == SlugLength && forall i :: 0 <= i < |slug| ==> IsAlnum(slug[i])
    ensures exists draws :: ValidDraws(draws) && CreateSlug(draws) == slug
  {
    var draws := seq(SlugLength, i requires 0 <= i < SlugLength => IndexOf(slug[i]));
    assert ValidDraws(draws);
    var s := CreateSlug(draws);
    assert forall i :: 0 <= i < SlugLength ==> s[i] == Alphabet()[draws[i]] == slug[i];
  }

  // ---------------------------------------------------------------------------
  // get-link

  /** The links of recipe `pk`, in order. */
  function LinksOf(links: seq<Schema.ShortLink>, pk: nat): (own: seq<Schema.ShortLink>)
    ensures forall l :: l in own <==> l in links && l.recipe == pk
  {
    if |links| == 0 then []
    else if links[0].recipe == pk then [links[0]] + LinksOf(links[1..], pk)
    else LinksOf(links[1..], pk)
  }

  predicate SlugTaken(links: seq<Schema.ShortLink>, slug: string)
  {
    exists l :: l in links && l.slug == slug
  }

  /** Why a get-link request fails: no such recipe (404), or an exception that
      reaches the client as a server error (500): `get` found several links, or
      the drawn slug belongs to another recipe's link. */
  datatype LinkError = NotFound | MultipleObjectsReturned | IntegrityError

  /** `get_link`: 404 for an unknown recipe; otherwise `get_or_create(recipe=…)`:
      the recipe's one link, or a new link under a freshly drawn slug. */
  function GetLink(db: Schema.Db, pk: nat, draws: seq<nat>): (res: (Schema.Db, Result<Schema.ShortLink, LinkError>))
    requires ValidDraws(draws)
    ensures pk !in db.recipes ==> res == (db, Err(NotFound))
    ensures pk in db.recipes && |LinksOf(db.links, pk)| == 1 ==> res == (db, Ok(LinksOf(db.links, pk)[0]))
    ensures pk in db.recipes && |LinksOf(db.links, pk)| > 1 ==> res == (db, Err(MultipleObjectsReturned))
    ensures pk in db.recipes && |LinksOf(db.links, pk)| == 0 ==>
              var slug := CreateSlug(draws);
              && (SlugTaken(db.links, slug) ==> res == (db, Err(IntegrityError)))
              && (!SlugTaken(db.links, slug) ==>
                    res == (db.(links := db.links + [Schema.ShortLink(pk, slug)]), Ok(Schema.ShortLink(pk, slug))))
    ensures res.1.Ok? ==> res.1.value.recipe == pk && res.1.value in res.0.links
    ensures Schema.Consistent(db) ==> Schema.Consistent(res.0)
  {
    if pk !in db.recipes then (db, Err(NotFound))
    else
      var own := LinksOf(db.links, pk);
      if |own| == 1 then
        assert own[0] in own;
        (db, Ok(own[0]))
      else if |own| > 1 then (db, Err(MultipleObjectsReturned))
      else
        var slug := CreateSlug(draws);
        if SlugTaken(db.links, slug) then (db, Err(IntegrityError))
        else
          var link := Schema.ShortLink(pk, slug);
          UniqueSlugsAppend(db.links, link);
          (db.(links := db.links + [link]), Ok(link))
  }

  /** Appending a link under an unused slug keeps slugs unique. */
  lemma {:induction false} UniqueSlugsAppend(links: seq<Schema.ShortLink>, link: Schema.ShortLink)
    requires !SlugTaken(links, link.slug)
    ensures Schema.UniqueSlugs(links) ==> Schema.UniqueSlugs(links + [link])
  {
    if |links| > 0 {
      assert (links + [link])[1..] == links[1..] + [link];
      assert !SlugTaken(links[1..], link.slug) by {
        assert forall l :: l in links[1..] ==> l in links;
      }
      UniqueSlugsAppend(links[1..], link);
      assert links[0] in links;
    }
  }

  /** Asking again for the link of a recipe that got one gives the same link and
      changes nothing, whatever is drawn the second time. */
  lemma GetLinkIdempotent(db: Schema.Db, pk: nat, draws1: seq<nat>, draws2: seq<nat>)
    requires ValidDraws(draws1) && ValidDraws(draws2)
    requires GetLink(db, pk, draws1).1.Ok?
    ensures var (db1, r1) := GetLink(db, pk, draws1);
            GetLink(db1, pk, draws2) == (db1, r1)
  {
    var (db1, r1) := GetLink(db, pk, draws1);
    if |LinksOf(db.links, pk)| == 0 {
      var link := r1.value;
      NoLinksAppend(db.links, link, pk);
    }
  }

  lemma {:induction false} NoLinksAppend(links: seq<Schema.ShortLink>, link: Schema.ShortLink, pk: nat)
    requires LinksOf(links, pk) == [] && link.recipe == pk
    ensures LinksOf(links + [link], pk) == [link]
  {
    if |links| > 0 {
      assert (links + [link])[1..] == links[1..] + [link];
      NoLinksAppend(links[1..], link, pk);
    }
  }

  // ---------------------------------------------------------------------------
  // Resolution

  /** The first link with the given slug. */
  function FindSlug(links: seq<Schema.ShortLink>, slug: string): (found: Option<Schema.ShortLink>)
    ensures found.Some? ==> found.value in links && found.value.slug == slug
    ensures found.None? <==> !SlugTaken(links, slug)
  {
    if |links| == 0 then None
    else if links[0].slug == slug then Some(links[0])
    else FindSlug(links[1..], slug)
  }

  /** With unique slugs, the link found for a slug is the one link carrying it. */
  lemma {:induction false} FindSlugUnique(links: seq<Schema.ShortLink>, link: Schema.ShortLink)
    requires Schema.UniqueSlugs(links) && link in links
    ensures FindSlug(links, link.slug) == Some(link)
  {
    if links[0] != link {
      FindSlugUnique(links[1..], link);
    }
  }

  /** The `shortlink` view: 404 for an unknown slug, otherwise a redirect to the
      detail route of the link's recipe. It changes nothing. */
  function Resolve(db: Schema.Db, slug: string): (r: Result<nat, LinkError>)
    ensures r.Err? <==> !SlugTaken(db.links, slug)
    ensures r.Err? ==> r.error == NotFound
    ensures r.Ok? ==> Schema.ShortLink(r.value, slug) in db.links
  {
    match FindSlug(db.links, slug)
    case None => Err(NotFound)
    case Some(link) => Ok(link.recipe)
  }

  /** The slug get-link hands out resolves to the recipe it was asked for. */
  lemma ResolveAfterGetLink(db: Schema.Db, pk: nat, draws: seq<nat>)
    requires Schema.Consistent(db) && ValidDraws(draws)
    requires GetLink(db, pk, draws).1.Ok?
    ensures var (db1, r) := GetLink(db, pk, draws);
            Resolve(db1, r.value.slug) == Ok(pk)
  {
    var (db1, r) := GetLink(db, pk, draws);
    FindSlugUnique(db1.links, r.value);
  }
}
