/** `makeLinkToId`: the href for a spec id, on this page or on another page of
    a multi-page build. */
module Links {
  import opened Wrappers

  /** The page section an id lives in: the page map may be missing, the id
      absent, or its entry empty, and all three mean "this page". */
  function SectionOf(idToSection: Option<map<string, string>>, id: string): Option<string> {
    if idToSection.None? || id !in idToSection.value || idToSection.value[id] == "" then None
    else Some(idToSection.value[id])
  }

  function MakeLinkToId(idToSection: Option<map<string, string>>, id: string): (r: string)
    ensures SectionOf(idToSection, id).None? <==> r == "#" + id
    ensures SectionOf(idToSection, id) == Some("index") <==> r == "./#" + id
    ensures |r| > |id| && r[|r| - |id| - 1..] == "#" + id
  {
    var hash := "#" + id;
    if idToSection.None? || id !in idToSection.value || idToSection.value[id] == "" then hash
    else
      var targetSec := idToSection.value[id];
      (if targetSec == "index" then "./" else targetSec + ".html") + hash
  }

  /** Position of the first `#` in a link. */
  function HashIndex(link: string): (k: Option<nat>)
    ensures k.Some? ==> k.value < |link| && link[k.value] == '#' && '#' !in link[..k.value]
    ensures k.None? ==> '#' !in link
  {
    if link == [] then None
    else if link[0] == '#' then Some(0)
    else match HashIndex(link[1..])
      case None => None
      case Some(k) =>
        assert link[..k + 1] == [link[0]] + link[1..][..k];
        Some(k + 1)
  }

  /** A link split at its first `#` into the page and the fragment. */
  function PageAndFragment(link: string): (string, string) {
    match HashIndex(link)
    case None => (link, "")
    case Some(k) => (link[..k], link[k + 1..])
  }

  /** The page a section is rendered to. */
  function PageFor(section: Option<string>): string {
    match section
    case None => ""
    case Some(sec) => if sec == "index" then "./" else sec + ".html"
  }

  lemma FirstHash(a: string, id: string)
    requires '#' !in a
    ensures HashIndex(a + "#" + id) == Some(|a|)
  {
    var link := a + "#" + id;
    assert link[|a|] == '#';
    assert link[..|a|] == a;
  }

  /** Reading a link back yields the id as its fragment and the section's
      page as its page, whenever section names hold no `#`. */
  lemma PageHasNoHash(section: Option<string>)
    requires forall s :: section == Some(s) ==> '#' !in s
    ensures '#' !in PageFor(section)
  {
    if section.Some? && section.value != "index" {
      var sec, page := section.value, PageFor(section);
      forall i | 0 <= i < |page|
        ensures page[i] != '#'
      {
        if i < |sec| {
          assert page[i] == sec[i];
        } else {
          assert page[i] == ".html"[i - |sec|];
        }
      }
    }
  }

  lemma LinkRoundTrip(idToSection: Option<map<string, string>>, id: string)
    requires forall s :: SectionOf(idToSection, id) == Some(s) ==> '#' !in s
    ensures PageAndFragment(MakeLinkToId(idToSection, id)) == (PageFor(SectionOf(idToSection, id)), id)
  {
    var page := PageFor(SectionOf(idToSection, id));
    var link := MakeLinkToId(idToSection, id);
    assert link == page + "#" + id;
    PageHasNoHash(SectionOf(idToSection, id));
    FirstHash(page, id);
    assert link[..|page|] == page;
    assert link[|page| + 1..] == id;
  }
}
