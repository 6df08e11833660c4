/**
 * The editor page: its content state, the load effect that fills it from the catalog entry named by
 * the route id, and the save, download and change handlers.
 */
module Editor {
  import opened Results
  import opened Text
  import opened JsNumbers
  import opened Templates

  /**
   * The page state: the HTML content shown in the editor, and the route id the load effect last ran
   * for (the effect depends on the id only, so it runs again only when the id changes).
   */
  datatype EditorState = EditorState(content: string, routeId: Option<string>)

  /** The state before the first render: empty content, and no route id seen yet. */
  function Initial(): (s: EditorState)
    ensures |s.content| == 0
    ensures s.routeId.None?
  {
    EditorState("", None)
  }

  /** `t.id === n`. */
  predicate Matches(t: Template, n: Number)
    ensures Matches(t, n) <==> n == Int(t.id)
  {
    StrictEquals(Int(t.id), n)
  }

  /** `c.find(t => t.id === n)`: the first entry whose id equals `n`, if any. */
  function Find(c: seq<Template>, n: Number): (r: Option<Template>)
    ensures r.None? <==> forall i :: 0 <= i < |c| ==> !Matches(c[i], n)
    ensures r.Some? ==>
      exists i :: 0 <= i < |c| && c[i] == r.value && Matches(c[i], n) && forall j :: 0 <= j < i ==> !Matches(c[j], n)
  {
    if |c| == 0 then None
    else if Matches(c[0], n) then Some(c[0])
    else
      var r := Find(c[1..], n);
      assert forall i :: 1 <= i < |c| ==> c[i] == c[1..][i - 1];
      r
  }

  /** With distinct ids the first match is the only one: `Find` returns the entry carrying the id. */
  lemma FindDistinct(c: seq<Template>, i: nat)
    requires DistinctIds(c)
    requires i < |c|
    ensures Find(c, Int(c[i].id)) == Some(c[i])
  {
    var r := Find(c, Int(c[i].id));
    var k :| 0 <= k < |c| && c[k] == r.value && Matches(c[k], Int(c[i].id)) &&
      forall j :: 0 <= j < k ==> !Matches(c[j], Int(c[i].id));
    assert k == i;
  }

  /** In a catalog numbered 1, 2, ... in order, lookup finds entry `n - 1` for each number `n` in range and nothing otherwise. */
  lemma FindNumbered(c: seq<Template>, n: Number)
    requires forall i :: 0 <= i < |c| ==> c[i].id == i + 1
    ensures Find(c, n) == if n.Int? && 1 <= n.value <= |c| then Some(c[n.value - 1]) else None
  {
    if n.Int? && 1 <= n.value <= |c| {
      FindDistinct(c, n.value - 1);
    } else {
      assert forall i :: 0 <= i < |c| ==> !Matches(c[i], n);
    }
  }

  /** Lookup in the catalog finds an entry exactly for the numbers 1 to 10, and entry `n - 1` for `n`. */
  lemma FindInCatalog(n: Number)
    ensures Find(Catalog, n) == if n.Int? && 1 <= n.value <= 10 then Some(Catalog[n.value - 1]) else None
  {
    CatalogNumbered();
    FindNumbered(Catalog, n);
  }

  /** The content the editor starts from for a template: its name as a heading, its description as a paragraph, unescaped. */
  function InitialContent(t: Template): (r: string)
    ensures |r| == |t.name| + |t.description| + 16
    ensures r[..4] == "<h1>" && r[|r| - 4..] == "</p>"
  {
    "<h1>" + t.name + "</h1><p>" + t.description + "</p>"
  }

  /** The load effect for route id `id`: a truthy id that selects a catalog entry replaces the content; anything else leaves it. */
  function Load(s: EditorState, id: Option<string>, c: seq<Template>): (r: EditorState)
    ensures r.routeId == s.routeId
    ensures id.None? || |id.value| == 0 ==> r == s
    ensures id.Some? && ParseInt(id.value).NaN? ==> r == s
    ensures id.Some? && |id.value| > 0 && (forall i :: 0 <= i < |c| ==> !Matches(c[i], ParseInt(id.value))) ==> r == s
    ensures id.Some? && |id.value| > 0 && (exists i :: 0 <= i < |c| && Matches(c[i], ParseInt(id.value))) ==>
      exists i :: 0 <= i < |c| && Matches(c[i], ParseInt(id.value)) &&
        (forall j :: 0 <= j < i ==> !Matches(c[j], ParseInt(id.value))) && r.content == InitialContent(c[i])
  {
    match id
    case None => s
    case Some(v) =>
      if |v| == 0 then s
      else match Find(c, ParseInt(v))
        case None => s
        case Some(t) => s.(content := InitialContent(t))
  }

  /** In a catalog numbered 1, 2, ... in order, opening the editor from the card of entry `i` fills it with that entry's heading and paragraph. */
  lemma LoadFromNumberedCard(s: EditorState, c: seq<Template>, i: nat)
    requires forall k :: 0 <= k < |c| ==> c[k].id == k + 1
    requires i < |c|
    ensures Load(s, Some(Cards(c)[i].link[|EditorRoute|..]), c).content == InitialContent(c[i])
  {
    LoadFromLink(s, c, i);
  }

  /** The editor link of entry `i` of a numbered catalog loads that entry. */
  lemma LoadFromLink(s: EditorState, c: seq<Template>, i: nat)
    requires forall k :: 0 <= k < |c| ==> c[k].id == k + 1
    requires i < |c|
    ensures Load(s, Some(EditorLink(c[i].id)[|EditorRoute|..]), c).content == InitialContent(c[i])
  {
    var link := EditorLink(c[i].id);
    LoadNumbered(s, c, link[|EditorRoute|..], i);
  }

  /** In a catalog numbered 1, 2, ... in order, a route id that parses to `i + 1` loads entry `i`. */
  lemma LoadNumbered(s: EditorState, c: seq<Template>, id: string, i: nat)
    requires forall k :: 0 <= k < |c| ==> c[k].id == k + 1
    requires i < |c| && ParseInt(id) == Int(i + 1)
    ensures Load(s, Some(id), c).content == InitialContent(c[i])
  {
    FindNumbered(c, Int(i + 1));
  }

  /** A route id whose number is outside 1 to 10, or that is not a number, leaves the content alone. */
  lemma LoadOutsideCatalog(s: EditorState, id: string)
    requires !(ParseInt(id).Int? && 1 <= ParseInt(id).value <= 10)
    ensures Load(s, Some(id), Catalog) == s
  {
    FindInCatalog(ParseInt(id));
  }

  /** Splits content of the `InitialContent` shape back into heading and paragraph text. */
  function ParseInitialContent(html: string): (r: Option<(string, string)>)
    ensures r.Some? ==> html == "<h1>" + r.value.0 + "</h1><p>" + r.value.1 + "</p>"
  {
    if |html| < 4 || html[..4] != "<h1>" then None
    else match IndexOf(html[4..], "</h1><p>")
      case None => None
      case Some(k) =>
        assert OccursAt(html[4..], "</h1><p>", k);
        assert html[4..][k..k + 8] == "</h1><p>";
        var rest := html[4 + k + 8..];
        if |rest| < 4 || rest[|rest| - 4..] != "</p>" then None
        else
          var name, description := html[4..4 + k], rest[..|rest| - 4];
          assert html == html[..4] + html[4..4 + k] + html[4 + k..4 + k + 8] + rest;
          assert html[4 + k..4 + k + 8] == html[4..][k..k + 8];
          assert rest == description + rest[|rest| - 4..];
          Some((name, description))
  }

  /** Heading and paragraph come back from the initial content whenever the name holds no `<`. */
  lemma InitialContentRoundTrip(t: Template)
    requires '<' !in t.name
    ensures ParseInitialContent(InitialContent(t)) == Some((t.name, t.description))
  {
    var html := InitialContent(t);
    var tail := html[4..];
    assert tail == t.name + "</h1><p>" + t.description + "</p>";
    assert OccursAt(tail, "</h1><p>", |t.name|);
    forall j | 0 <= j < |t.name|
      ensures !OccursAt(tail, "</h1><p>", j)
    {
      assert tail[j] == t.name[j] && t.name[j] != '<';
      if OccursAt(tail, "</h1><p>", j) {
        OccurrenceStart(tail, "</h1><p>", j);
        assert false;
      }
    }
    var r := IndexOf(tail, "</h1><p>");
    assert r.Some?;
    assert r.value == |t.name|;
    var rest := html[4 + |t.name| + 8..];
    assert rest == t.description + "</p>";
    assert rest[|rest| - 4..] == "</p>";
    assert html[..4] == "<h1>";
    assert html[4..4 + |t.name|] == t.name;
  }

  /** No catalog name holds a `<`, so every initial content splits back into its entry's name and description. */
  lemma CatalogContentRoundTrip(i: nat)
    requires i < |Catalog|
    ensures ParseInitialContent(InitialContent(Catalog[i])) == Some((Catalog[i].name, Catalog[i].description))
  {
    NamesHaveNoMarkup(i);
    InitialContentRoundTrip(Catalog[i]);
  }

  /** A toast notification: title and description. */
  datatype Toast = Toast(title: string, description: string)

  /** `handleSave`: the content stays as it is; the only effect is a notification. */
  function Save(s: EditorState): (r: (EditorState, Toast))
    ensures r.0 == s
    ensures r.1 == Toast("Template Saved", "Your template has been saved successfully.")
  {
    (s, Toast("Template Saved", "Your template has been saved successfully."))
  }

  /** The file `handleDownload` offers: its name, its MIME type and its body. */
  datatype Artifact = Artifact(fileName: string, mimeType: string, body: string)

  /** `handleDownload`: an HTML file named `template.html` holding the current content verbatim. */
  function Download(s: EditorState): (a: Artifact)
    ensures a.fileName == "template.html" && a.mimeType == "text/html"
    ensures a.body == s.content
  {
    Artifact("template.html", "text/html", s.content)
  }

  /** The editor's `onChange`: the new value replaces the content wholesale. */
  function Edit(s: EditorState, value: string): (r: EditorState)
    ensures r.content == value
    ensures r.routeId == s.routeId
  {
    s.(content := value)
  }

  /** What a user can do on the page: navigate to a route id, click Save or Download, or change the text. */
  datatype Event = Navigate(id: Option<string>) | SaveClicked | DownloadClicked | Changed(value: string)

  /** What an event produces besides the new state. */
  datatype Output = Silent | Notified(toast: Toast) | Downloaded(artifact: Artifact)

  /**
   * One event on the page. A navigation records the route id and runs the load effect only when
   * the id differs from the one the effect last ran for; the other events are the handlers.
   */
  function Step(s: EditorState, e: Event): (r: (EditorState, Output))
    ensures e.Navigate? ==> r.0.routeId == e.id && r.1 == Silent
    ensures e.Navigate? && e.id == s.routeId ==> r.0 == s
    ensures e.Navigate? && e.id != s.routeId ==> r.0 == Load(s.(routeId := e.id), e.id, Catalog)
    ensures IsReadOnly(e) ==> r.0 == s
    ensures e.SaveClicked? ==> r.1.Notified?
    ensures e.DownloadClicked? ==> r.1.Downloaded? && r.1.artifact.body == s.content
    ensures e.Changed? ==> r.0.content == e.value && r.0.routeId == s.routeId && r.1 == Silent
  {
    match e
    case Navigate(id) => if id == s.routeId then (s, Silent) else (Load(s.(routeId := id), id, Catalog), Silent)
    case SaveClicked => (Save(s).0, Notified(Save(s).1))
    case DownloadClicked => (s, Downloaded(Download(s)))
    case Changed(v) => (Edit(s, v), Silent)
  }

  /**
   * A sequence of events from state `s`: the final state and the outputs in order. Output `k`
   * belongs to event `k`: a notification exactly for a Save, a file exactly for a Download.
   */
  function Run(s: EditorState, es: seq<Event>): (r: (EditorState, seq<Output>))
    ensures |r.1| == |es|
    ensures forall k :: 0 <= k < |es| ==> (r.1[k].Notified? <==> es[k].SaveClicked?) && (r.1[k].Downloaded? <==> es[k].DownloadClicked?)
    decreases |es|
  {
    if |es| == 0 then (s, [])
    else
      var (s1, o) := Step(s, es[0]);
      var (s2, os) := Run(s1, es[1..]);
      (s2, [o] + os)
  }

  /**
   * Opening the editor at the route of the card of catalog entry `i`, from a page that has not
   * loaded any route id yet, runs the load effect and fills the editor with that entry.
   */
  lemma OpenedFromCard(s: EditorState, i: nat)
    requires s.routeId.None? && i < |Catalog|
    ensures Run(s, [Navigate(Some(Cards(Catalog)[i].link[|EditorRoute|..]))]).0.content == InitialContent(Catalog[i])
  {
    var id := Some(Cards(Catalog)[i].link[|EditorRoute|..]);
    NavigateRunsLoad(s, id);
    LoadFromCatalogCard(s.(routeId := id), i);
  }

  /** The route id of the card of catalog entry `i` loads that entry. */
  lemma LoadFromCatalogCard(s: EditorState, i: nat)
    requires i < |Catalog|
    ensures Load(s, Some(Cards(Catalog)[i].link[|EditorRoute|..]), Catalog).content == InitialContent(Catalog[i])
  {
    CatalogNumbered();
    LoadFromNumberedCard(s, Catalog, i);
  }

  /** A navigation to a route id other than the one the effect last ran for runs the load effect for it. */
  lemma NavigateRunsLoad(s: EditorState, id: Option<string>)
    requires id != s.routeId
    ensures Run(s, [Navigate(id)]).0 == Load(s.(routeId := id), id, Catalog)
  {
    assert [Navigate(id)][1..] == [];
  }

  /** Saving and downloading never change the content. */
  predicate IsReadOnly(e: Event)
  {
    e.SaveClicked? || e.DownloadClicked?
  }

  /**
   * After the text is changed to `v`, any number of saves and downloads keep it at `v`, and every
   * download among them delivers exactly `v`.
   */
  lemma {:induction false} ReadOnlyRunKeepsContent(s: EditorState, es: seq<Event>)
    requires forall k :: 0 <= k < |es| ==> IsReadOnly(es[k])
    ensures Run(s, es).0 == s
    ensures forall k :: 0 <= k < |es| && Run(s, es).1[k].Downloaded? ==> Run(s, es).1[k].artifact.body == s.content
  {
    if |es| > 0 {
      assert IsReadOnly(es[0]);
      assert Step(s, es[0]).0 == s;
      ReadOnlyRunKeepsContent(s, es[1..]);
      var os := Run(s, es).1;
      assert os[1..] == Run(s, es[1..]).1;
      forall k | 0 <= k < |es| && os[k].Downloaded?
        ensures os[k].artifact.body == s.content
      {
        if k > 0 {
          assert os[k] == Run(s, es[1..]).1[k - 1];
        }
      }
    }
  }

  /** The content after a change is the changed value, whatever came before and whatever saves and downloads follow. */
  lemma LastChangeWins(s: EditorState, v: string, es: seq<Event>)
    requires forall k :: 0 <= k < |es| ==> IsReadOnly(es[k])
    ensures Run(s, [Changed(v)] + es).0.content == v
  {
    var all := [Changed(v)] + es;
    assert all[1..] == es;
    ReadOnlyRunKeepsContent(Edit(s, v), es);
  }

  /**
   * Coming back to the route id the effect last ran for does not run it again: an edit made
   * between two navigations to the same id survives the second one.
   */
  lemma RevisitedRouteKeepsEdit(s: EditorState, id: Option<string>, v: string)
    ensures Run(s, [Navigate(id), Changed(v), Navigate(id)]).0.content == v
  {
    var es := [Navigate(id), Changed(v), Navigate(id)];
    assert es[1..] == [Changed(v), Navigate(id)] && es[1..][1..] == [Navigate(id)] && es[1..][1..][1..] == [];
    var s1 := Step(s, Navigate(id)).0;
    var s2 := Step(s1, Changed(v)).0;
    assert s2.routeId == id && s2.content == v;
    assert Step(s2, Navigate(id)).0 == s2;
    assert Run(s2, [Navigate(id)]).0 == s2;
    assert Run(s1, [Changed(v), Navigate(id)]).0 == s2;
    assert Run(s, es).0 == Run(s1, es[1..]).0;
  }
}
