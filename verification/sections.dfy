/**
 * The page's fixed set of sections, the DOM ids they are found by, and the
 * refs the page fills in once it has mounted.
 */
module Sections {
  import opened Wrappers

  /** `SectionId`: one of the five sections of the page. */
  datatype SectionId = Home | About | Experience | Projects | Contact

  /** `SECTIONS`: every section, in the order the page lists them. */
  const SECTIONS: seq<SectionId> := [Home, About, Experience, Projects, Contact]

  /** The id of the fixed header element. */
  const HEADER_ID: string := "site-header"

  /** The string a `SectionId` stands for, which is also the id of the section's element. */
  function Name(id: SectionId): (n: string)
    ensures |n| > 0 && n != HEADER_ID
  {
    match id
    case Home => "home"
    case About => "about"
    case Experience => "experience"
    case Projects => "projects"
    case Contact => "contact"
  }

  /** The position of a section in `SECTIONS`. */
  function Index(id: SectionId): (i: nat)
    ensures i < |SECTIONS| && SECTIONS[i] == id
  {
    match id
    case Home => 0
    case About => 1
    case Experience => 2
    case Projects => 3
    case Contact => 4
  }

  /** `SECTIONS` lists each section exactly once: position and section determine each other. */
  lemma IndexOfPosition(i: nat)
    requires i < |SECTIONS|
    ensures Index(SECTIONS[i]) == i
  {
  }

  /** Different sections have different element ids, and none is the header's. */
  lemma NamesDistinct(a: SectionId, b: SectionId)
    ensures Name(a) == Name(b) <==> a == b
    ensures Name(a) != HEADER_ID
  {
  }

  /**
   * The height the page uses for the fixed header: the header element's
   * `offsetHeight`, or 0 when the header ref holds no element (`?? 0`).
   */
  function HeaderHeight(header: Option<int>): (h: int)
    ensures header.None? ==> h == 0
    ensures header.Some? ==> h == header.value
  {
    header.GetOr(0)
  }

  /**
   * The page's element refs: `sectionRefs[id].current` and `headerRef.current`.
   * A ref either holds the element found by its id or is null; `sections` is the
   * set of sections whose ref holds an element.
   */
  class Refs {
    var sections: set<SectionId>
    var header: bool

    /** Every ref starts out null (`createRef`, `useRef(null)`). */
    constructor ()
      ensures sections == {} && !header
    {
      sections := {};
      header := false;
    }

    /**
     * The mount effect: each section ref, in `SECTIONS` order, and then the
     * header ref is overwritten with the result of looking its id up in the
     * document, whose element ids are `documentIds`.
     */
    method Attach(documentIds: set<string>)
      modifies this
      ensures forall id :: id in sections <==> Name(id) in documentIds
      ensures header <==> HEADER_ID in documentIds
    {
      for i := 0 to |SECTIONS|
        invariant forall j :: 0 <= j < i ==> (SECTIONS[j] in sections <==> Name(SECTIONS[j]) in documentIds)
        invariant forall j :: i <= j < |SECTIONS| ==> (SECTIONS[j] in sections <==> SECTIONS[j] in old(sections))
      {
        var id := SECTIONS[i];
        if Name(id) in documentIds {
          sections := sections + {id};
        } else {
          sections := sections - {id};
        }
      }
      forall id: SectionId
        ensures id in sections <==> Name(id) in documentIds
      {
        assert SECTIONS[Index(id)] == id;
      }
      header := HEADER_ID in documentIds;
    }
  }
}
