/** The fixed template catalog of the gallery page and the cards it renders, one per entry. */
module Templates {
  import opened JsNumbers

  /** A catalog entry: immutable, defined once at build time. */
  datatype Template = Template(id: nat, name: string, description: string, image: string, category: string)

  /** The ids of `c` are pairwise distinct. */
  predicate DistinctIds(c: seq<Template>)
  {
    forall i, j :: 0 <= i < j < |c| ==> c[i].id != c[j].id
  }

  /** The catalog names, in display order; the catalog below takes each entry's name from here. */
  const CatalogNames: seq<string> := [
    "Business Invitation", "Newsletter", "Product Launch", "Welcome Email", "Event Announcement",
    "Thank You", "Feedback Request", "Holiday Special", "Company Update", "Promotional Offer"
  ]

  /** The catalog, in display order. */
  const Catalog: seq<Template> :=
    [
      Template(1, CatalogNames[0], "Professional template for business events and meetings",
        "https://images.unsplash.com/photo-1486312338219-ce68d2c6f44d", "Business"),
      Template(2, CatalogNames[1], "Clean and modern newsletter template",
        "https://images.unsplash.com/photo-1488590528505-98d2b5aba04b", "Marketing"),
      Template(3, CatalogNames[2], "Announce your new product with style",
        "https://images.unsplash.com/photo-1461749280684-dccba630e2f6", "Marketing"),
      Template(4, CatalogNames[3], "Warm welcome message for new subscribers",
        "https://images.unsplash.com/photo-1649972904349-6e44c42644a7", "Onboarding"),
      Template(5, CatalogNames[4], "Promote your upcoming events",
        "https://images.unsplash.com/photo-1518770660439-4636190af475", "Events"),
      Template(6, CatalogNames[5], "Express gratitude to your customers",
        "https://images.unsplash.com/photo-1581091226825-a6a2a5aee158", "Customer Service"),
      Template(7, CatalogNames[6], "Gather customer feedback effectively",
        "https://images.unsplash.com/photo-1485827404703-89b55fcc595e", "Customer Service"),
      Template(8, CatalogNames[7], "Seasonal greetings and promotions",
        "https://images.unsplash.com/photo-1526374965328-7f61d4dc18c5", "Marketing"),
      Template(9, CatalogNames[8], "Keep your team informed",
        "https://images.unsplash.com/photo-1531297484001-80022131f5a1", "Internal"),
      Template(10, CatalogNames[9], "Showcase your special deals",
        "https://images.unsplash.com/photo-1487058792275-0ad4aaf24ca7", "Marketing")
    ]

  /** The catalog holds ten entries numbered 1 to 10 in order, so its ids are distinct. */
  lemma CatalogNumbered()
    ensures |Catalog| == 10
    ensures forall i :: 0 <= i < |Catalog| ==> Catalog[i].id == i + 1
    ensures DistinctIds(Catalog)
  {
  }

  /** Every entry has a name, a description and a category. */
  lemma CatalogFieldsNonEmpty(i: nat)
    requires i < |Catalog|
    ensures |Catalog[i].name| > 0 && |Catalog[i].description| > 0 && |Catalog[i].category| > 0
  {
  }

  /** What a gallery card shows: its key, image with alt text, category badge, title, description and link. */
  datatype Card = Card(key: nat, imageSource: string, imageAlt: string, category: string,
                       title: string, description: string, link: string)

  /** The route prefix of the editor page. */
  const EditorRoute: string := "/editor/"

  /** The editor link of a template: the route prefix followed by the decimal id. */
  function EditorLink(id: nat): (r: string)
    ensures |r| > |EditorRoute| && r[..|EditorRoute|] == EditorRoute
    ensures r == EditorRoute + NatToString(id)
    ensures ParseInt(r[|EditorRoute|..]) == Int(id)
  {
    var r := EditorRoute + NatToString(id);
    assert r[|EditorRoute|..] == NatToString(id) + [];
    ParseIntOfNatToString(id, []);
    r
  }

  /** The card for one template. */
  function CardOf(t: Template): (c: Card)
    ensures c.key == t.id && c.title == t.name && c.imageAlt == t.name
    ensures c.imageSource == t.image && c.category == t.category && c.description == t.description
    ensures c.link == EditorRoute + NatToString(t.id)
  {
    Card(t.id, t.image, t.name, t.category, t.name, t.description, EditorLink(t.id))
  }

  /** The cards of the gallery: one per catalog entry, in catalog order. */
  function Cards(c: seq<Template>): (r: seq<Card>)
    ensures |r| == |c|
    ensures forall i :: 0 <= i < |c| ==> r[i] == CardOf(c[i])
  {
    if |c| == 0 then [] else [CardOf(c[0])] + Cards(c[1..])
  }

  /** Every card links to the editor with a route id that parses back to its template's id. */
  lemma CardLinksParseBack(c: seq<Template>, i: nat)
    requires i < |c|
    ensures var card := Cards(c)[i];
      card.key == c[i].id &&
      card.link[..|EditorRoute|] == EditorRoute &&
      ParseInt(card.link[|EditorRoute|..]) == Int(c[i].id)
  {
  }

  /** No catalog name holds a `<`: inserted into markup, a name stays plain text. */
  lemma NamesHaveNoMarkup(i: nat)
    requires i < |Catalog|
    ensures '<' !in Catalog[i].name
  {
    assert Catalog[i].name == CatalogNames[i];
    PlainName(CatalogNames[i]);
  }

  /** Each catalog name is free of `<`. */
  lemma PlainName(s: string)
    requires s in CatalogNames
    ensures '<' !in s
  {
  }
}
