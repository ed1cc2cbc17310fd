/**
 The personal-wiki widget: the filtered list it shows, the set of expanded
 entries, the local patches it applies to its list after the backend accepted
 a save or a delete, and the entry form with its tag and link lists.
 The backend's answer is a parameter: the stored row, or None when the request
 failed (the widget then logs the error and changes nothing).
 */
module Wiki {
  import opened Optional
  import opened Seqs
  import opened Text

  /** A wiki entry row. */
  datatype WikiEntry = WikiEntry(
    id: string,
    title: string,
    summary: string,
    content: string,
    tags: seq<string>,
    category: string,
    status: string,
    priority: string,
    isPublic: bool,
    rating: Option<int>,
    relatedLinks: seq<string>,
    fileUrls: seq<string>)

  /** The four list filters; "all" (or an empty tag) means no constraint. */
  datatype Filters = Filters(category: string, status: string, visibility: string, tag: string)

  /** The filters the widget starts with. */
  const InitialFilters := Filters("general", "draft", "all", "")

  /** The filters that constrain nothing. */
  const NoFilters := Filters("all", "all", "all", "")

  /** Some tag, lower-cased, contains `tag` lower-cased (`entry.tags.some(...)`). */
  predicate TagMatches(e: WikiEntry, tag: string) {
    exists t :: t in e.tags && Contains(Lower(t), Lower(tag))
  }

  /**
   What the four filters mean together: each one that is set must hold.
   Visibility "public" asks for public entries, any other value but "all" for
   private ones; the tag asks for a tag containing it, ignoring ASCII case.
   */
  ghost predicate Admits(e: WikiEntry, f: Filters) {
    && (f.category == "all" || e.category == f.category)
    && (f.status == "all" || e.status == f.status)
    && (f.visibility == "public" ==> e.isPublic)
    && (f.visibility != "all" && f.visibility != "public" ==> !e.isPublic)
    && (f.tag != "" ==> exists t, i :: t in e.tags && OccursAt(Lower(t), Lower(f.tag), i))
  }

  /** The filter callback, in the source's order of early returns. */
  function Passes(e: WikiEntry, f: Filters): (ok: bool)
    ensures ok <==> Admits(e, f)
  {
    if f.category != "all" && e.category != f.category then false
    else if f.status != "all" && e.status != f.status then false
    else if f.visibility != "all" && e.isPublic != (f.visibility == "public") then false
    else if f.tag != "" && !TagMatches(e, f.tag) then false
    else true
  }

  /**
   `filteredEntries`: the entries every filter admits, in their original order,
   each as often as it occurs.
   */
  function FilterEntries(entries: seq<WikiEntry>, f: Filters): (r: seq<WikiEntry>)
    ensures IsSubsequence(r, entries)
    ensures forall e :: e in r <==> e in entries && Admits(e, f)
    ensures forall e :: multiset(r)[e] == if Admits(e, f) then multiset(entries)[e] else 0
  {
    Filter(entries, (e: WikiEntry) => Passes(e, f))
  }

  /** With every filter on "all" and no tag, the list is the whole list. */
  lemma NoFiltersShowEverything(entries: seq<WikiEntry>)
    ensures FilterEntries(entries, NoFilters) == entries
  {
    FilterAll(entries, (e: WikiEntry) => Passes(e, NoFilters));
  }

  /** The initial view shows exactly the general drafts, public or not. */
  lemma InitialFiltersShowGeneralDrafts(entries: seq<WikiEntry>)
    ensures forall e :: e in FilterEntries(entries, InitialFilters) <==>
                          e in entries && e.category == "general" && e.status == "draft"
  {
  }

  /** `toggleExpanded`: `id` changes membership, every other id keeps it. */
  function ToggleExpanded(expanded: set<string>, id: string): (r: set<string>)
    ensures id in r <==> id !in expanded
    ensures forall x :: x != id ==> (x in r <==> x in expanded)
  {
    if id in expanded then expanded - {id} else expanded + {id}
  }

  /** Toggling twice gives back the set. */
  lemma ToggleExpandedTwice(expanded: set<string>, id: string)
    ensures ToggleExpanded(ToggleExpanded(expanded, id), id) == expanded
  {
  }

  /** The widget's local state. */
  datatype WidgetState = WidgetState(
    entries: seq<WikiEntry>,
    expanded: set<string>,
    editing: Option<string>,
    creating: bool,
    filters: Filters)

  /**
   The widget as it mounts: the fetched entries, nothing expanded, edited or
   being created, and the initial filters, which show the general drafts.
   */
  function InitialState(entries: seq<WikiEntry>): (st: WidgetState)
    ensures st.entries == entries && st.expanded == {} && st.editing == None && !st.creating
    ensures forall e :: e in FilterEntries(st.entries, st.filters) <==>
                          e in entries && e.category == "general" && e.status == "draft"
  {
    var st := WidgetState(entries, {}, None, false, InitialFilters);
    InitialFiltersShowGeneralDrafts(entries);
    st
  }

  /** `startEditing`: the entry is being edited and is expanded; nothing else changes. */
  function StartEditing(st: WidgetState, id: string): (r: WidgetState)
    ensures r.editing == Some(id)
    ensures forall x :: x in r.expanded <==> x in st.expanded || x == id
    ensures r.entries == st.entries && r.creating == st.creating && r.filters == st.filters
  {
    st.(editing := Some(id), expanded := st.expanded + {id})
  }

  /** `cancelEditing`: no entry is edited and no entry is being created. */
  function CancelEditing(st: WidgetState): (r: WidgetState)
    ensures r.editing.None? && !r.creating
    ensures r.entries == st.entries && r.expanded == st.expanded && r.filters == st.filters
  {
    st.(editing := None, creating := false)
  }

  /**
   `prev.map(e => e.id === id ? row : e)`: every entry with that id becomes `row`,
   every other entry stays, at its place.
   */
  function ReplaceById(entries: seq<WikiEntry>, id: string, row: WikiEntry): (r: seq<WikiEntry>)
    ensures |r| == |entries|
    ensures forall i :: 0 <= i < |r| ==> r[i] == if entries[i].id == id then row else entries[i]
  {
    if entries == [] then []
    else [if entries[0].id == id then row else entries[0]] + ReplaceById(entries[1..], id, row)
  }

  function OtherId(id: string): WikiEntry -> bool {
    (e: WikiEntry) => e.id != id
  }

  /** `prev.filter(e => e.id !== id)`. */
  function RemoveById(entries: seq<WikiEntry>, id: string): (r: seq<WikiEntry>)
    ensures IsSubsequence(r, entries)
    ensures forall e :: e in r <==> e in entries && e.id != id
    ensures forall e: WikiEntry :: e.id != id ==> multiset(r)[e] == multiset(entries)[e]
  {
    Filter(entries, OtherId(id))
  }

  /** What the form submits: its fields, and the id when it edits an existing entry. */
  datatype EntryDraft = EntryDraft(id: Option<string>, form: EntryForm)

  /**
   `saveEntry` after the backend answered: a draft with an id replaces the entries
   with that id by the stored row, a draft without one puts the stored row first;
   either way editing ends. A failed request changes nothing.
   */
  function SaveEntry(st: WidgetState, draft: EntryDraft, stored: Option<WikiEntry>): (r: WidgetState)
    ensures stored.None? ==> r == st
    ensures stored.Some? ==> r.editing.None? && r.expanded == st.expanded && r.filters == st.filters
    ensures stored.Some? && draft.id.Some? && draft.id.value != "" ==>
              && |r.entries| == |st.entries|
              && (forall i :: 0 <= i < |r.entries| && st.entries[i].id == draft.id.value ==> r.entries[i] == stored.value)
              && (forall i :: 0 <= i < |r.entries| && st.entries[i].id != draft.id.value ==> r.entries[i] == st.entries[i])
              && r.creating == st.creating
    ensures stored.Some? && (draft.id.None? || draft.id.value == "") ==>
              r.entries == [stored.value] + st.entries && !r.creating
  {
    match stored
    case None => st
    case Some(row) =>
      if draft.id.Some? && draft.id.value != "" then
        st.(entries := ReplaceById(st.entries, draft.id.value, row), editing := None)
      else
        st.(entries := [row] + st.entries, creating := false, editing := None)
  }

  /**
   `deleteEntry`: once confirmed and accepted by the backend, the entries with
   that id are gone from the list and the id from the expanded set; the rest of
   the list keeps its order. Cancelled or failed, nothing changes.
   */
  function DeleteEntry(st: WidgetState, id: string, confirmed: bool, accepted: bool): (r: WidgetState)
    ensures !(confirmed && accepted) ==> r == st
    ensures confirmed && accepted ==>
              && IsSubsequence(r.entries, st.entries)
              && (forall e :: e in r.entries <==> e in st.entries && e.id != id)
              && (forall e: WikiEntry :: e.id != id ==> multiset(r.entries)[e] == multiset(st.entries)[e])
              && (forall x :: x in r.expanded <==> x in st.expanded && x != id)
              && r.editing == st.editing && r.creating == st.creating && r.filters == st.filters
  {
    if confirmed && accepted then
      st.(entries := RemoveById(st.entries, id), expanded := st.expanded - {id})
    else st
  }

  /** Deleting an entry just saved under its id leaves what deleting it before would have left. */
  lemma {:induction false} DeleteAfterUpdate(entries: seq<WikiEntry>, row: WikiEntry)
    ensures RemoveById(ReplaceById(entries, row.id, row), row.id) == RemoveById(entries, row.id)
  {
    if entries != [] {
      var rest := ReplaceById(entries[1..], row.id, row);
      assert ReplaceById(entries, row.id, row)[1..] == rest;
      DeleteAfterUpdate(entries[1..], row);
    }
  }

  /** Deleting an entry just created, under a fresh id, gives back the list before the creation. */
  lemma DeleteAfterCreate(entries: seq<WikiEntry>, row: WikiEntry)
    requires forall e :: e in entries ==> e.id != row.id
    ensures RemoveById([row] + entries, row.id) == entries
  {
    assert ([row] + entries)[1..] == entries;
    FilterAll(entries, OtherId(row.id));
  }

  /** The entry form's fields. */
  datatype EntryForm = EntryForm(
    title: string,
    summary: string,
    content: string,
    category: string,
    status: string,
    priority: string,
    isPublic: bool,
    rating: Option<int>,
    tags: seq<string>,
    relatedLinks: seq<string>,
    fileUrls: seq<string>)

  /** JavaScript's `s || d` on strings: the empty string is falsy. */
  function OrDefault(s: string, d: string): (r: string)
    ensures s != "" ==> r == s
    ensures s == "" ==> r == d
    ensures r == "" <==> s == "" && d == ""
  {
    if s == "" then d else s
  }

  /** The editable fields of an entry, as they are. */
  function FieldsOf(e: WikiEntry): EntryForm {
    EntryForm(e.title, e.summary, e.content, e.category, e.status, e.priority, e.isPublic, e.rating,
              e.tags, e.relatedLinks, e.fileUrls)
  }

  /**
   The form's initial fields (`entry?.x || default`): empty text, category
   "general", status "draft", priority "medium", private, unrated, no lists for a
   new entry; an edited entry's own fields, where an empty category, status or
   priority falls back to the default and a rating of 0 becomes none.
   */
  function InitialForm(entry: Option<WikiEntry>): (form: EntryForm)
    ensures entry.None? ==> form == EntryForm("", "", "", "general", "draft", "medium", false, None, [], [], [])
    ensures entry.Some? ==> form.title == entry.value.title
    ensures entry.Some? ==> form.summary == entry.value.summary
    ensures entry.Some? ==> form.content == entry.value.content
    ensures entry.Some? ==> form.category == (if entry.value.category == "" then "general" else entry.value.category)
    ensures entry.Some? ==> form.status == (if entry.value.status == "" then "draft" else entry.value.status)
    ensures entry.Some? ==> form.priority == (if entry.value.priority == "" then "medium" else entry.value.priority)
    ensures entry.Some? ==> form.isPublic == entry.value.isPublic
    ensures entry.Some? ==> (form.rating.None? <==> entry.value.rating.None? || entry.value.rating == Some(0))
    ensures entry.Some? ==> (form.rating.Some? ==> form.rating == entry.value.rating)
    ensures entry.Some? ==> form.tags == entry.value.tags
    ensures entry.Some? ==> form.relatedLinks == entry.value.relatedLinks
    ensures entry.Some? ==> form.fileUrls == entry.value.fileUrls
  {
    match entry
    case None => EntryForm("", "", "", "general", "draft", "medium", false, None, [], [], [])
    case Some(e) =>
      EntryForm(e.title, e.summary, e.content, OrDefault(e.category, "general"), OrDefault(e.status, "draft"),
                OrDefault(e.priority, "medium"), e.isPublic, if e.rating == Some(0) then None else e.rating,
                e.tags, e.relatedLinks, e.fileUrls)
  }

  /**
   Opening the form on an entry shows its fields unchanged exactly when none of
   them is falsy: a non-empty category, status and priority, and no rating of 0.
   */
  lemma InitialFormFaithful(e: WikiEntry)
    ensures InitialForm(Some(e)) == FieldsOf(e) <==>
              e.category != "" && e.status != "" && e.priority != "" && e.rating != Some(0)
  {
  }

  /** `handleSubmit`: the fields, with the entry's id when editing. */
  function Submit(form: EntryForm, entry: Option<WikiEntry>): (d: EntryDraft)
    ensures d.form == form
    ensures d.id.Some? <==> entry.Some?
    ensures entry.Some? ==> d.id == Some(entry.value.id)
  {
    EntryDraft(if entry.Some? then Some(entry.value.id) else None, form)
  }

  /** The form and its two pending inputs. */
  datatype FormState = FormState(data: EntryForm, newTag: string, newLink: string)

  predicate NoDuplicates(s: seq<string>) {
    forall i, j :: 0 <= i < j < |s| ==> s[i] != s[j]
  }

  /**
   `addTag`: the trimmed pending tag is appended, and the input cleared, when it is
   non-empty and not yet a tag; otherwise nothing changes. Only the tags and the
   pending input ever change, and a duplicate-free tag list stays duplicate-free.
   */
  function AddTag(fs: FormState): (r: FormState)
    ensures var t := Trim(fs.newTag);
            if t != [] && t !in fs.data.tags then r.data.tags == fs.data.tags + [t] && r.newTag == ""
            else r == fs
    ensures r.data == fs.data.(tags := r.data.tags) && r.newLink == fs.newLink
    ensures NoDuplicates(fs.data.tags) ==> NoDuplicates(r.data.tags)
  {
    var t := Trim(fs.newTag);
    if t != [] && t !in fs.data.tags then
      var tags := fs.data.tags + [t];
      assert NoDuplicates(fs.data.tags) ==> NoDuplicates(tags) by {
        if NoDuplicates(fs.data.tags) {
          forall i, j | 0 <= i < j < |tags| ensures tags[i] != tags[j] {
            if j == |fs.data.tags| {
              assert tags[i] == fs.data.tags[i];
            }
          }
        }
      }
      fs.(data := fs.data.(tags := tags), newTag := "")
    else fs
  }

  function OtherTag(tag: string): string -> bool {
    (t: string) => t != tag
  }

  /** `removeTag`: every occurrence of the value goes; the other tags stay, in order. */
  function RemoveTag(fs: FormState, tag: string): (r: FormState)
    ensures tag !in r.data.tags
    ensures forall t :: t != tag ==> multiset(r.data.tags)[t] == multiset(fs.data.tags)[t]
    ensures IsSubsequence(r.data.tags, fs.data.tags)
    ensures r.data == fs.data.(tags := r.data.tags) && r.newTag == fs.newTag && r.newLink == fs.newLink
  {
    fs.(data := fs.data.(tags := Filter(fs.data.tags, OtherTag(tag))))
  }

  /** Removing a tag just added gives back the tags before. */
  lemma RemoveAddedTag(fs: FormState)
    ensures var t := Trim(fs.newTag);
            t != [] && t !in fs.data.tags ==> RemoveTag(AddTag(fs), t).data.tags == fs.data.tags
  {
    var t := Trim(fs.newTag);
    if t != [] && t !in fs.data.tags {
      FilterAppend(fs.data.tags, [t], OtherTag(t));
      FilterAll(fs.data.tags, OtherTag(t));
    }
  }

  /** `addLink`: the trimmed pending link is appended, and the input cleared, when non-empty. */
  function AddLink(fs: FormState): (r: FormState)
    ensures var l := Trim(fs.newLink);
            if l != [] then r.data.relatedLinks == fs.data.relatedLinks + [l] && r.newLink == ""
            else r == fs
    ensures r.data == fs.data.(relatedLinks := r.data.relatedLinks) && r.newTag == fs.newTag
  {
    var l := Trim(fs.newLink);
    if l != [] then fs.(data := fs.data.(relatedLinks := fs.data.relatedLinks + [l]), newLink := "")
    else fs
  }

  /** `links.filter((_, i) => i !== index)`. */
  function RemoveAt(links: seq<string>, index: int): (r: seq<string>)
    ensures 0 <= index < |links| ==> r == links[..index] + links[index + 1..]
    ensures !(0 <= index < |links|) ==> r == links
  {
    if links == [] then []
    else if index == 0 then links[1..]
    else
      var rest := RemoveAt(links[1..], index - 1);
      assert links == [links[0]] + links[1..];
      [links[0]] + rest
  }

  /** `removeLink`: exactly the link at that position goes; an index out of range removes nothing. */
  function RemoveLink(fs: FormState, index: int): (r: FormState)
    ensures 0 <= index < |fs.data.relatedLinks| ==>
              && |r.data.relatedLinks| == |fs.data.relatedLinks| - 1
              && (forall i :: 0 <= i < index ==> r.data.relatedLinks[i] == fs.data.relatedLinks[i])
              && (forall i :: index <= i < |r.data.relatedLinks| ==> r.data.relatedLinks[i] == fs.data.relatedLinks[i + 1])
    ensures !(0 <= index < |fs.data.relatedLinks|) ==> r == fs
    ensures r.data == fs.data.(relatedLinks := r.data.relatedLinks) && r.newTag == fs.newTag && r.newLink == fs.newLink
  {
    fs.(data := fs.data.(relatedLinks := RemoveAt(fs.data.relatedLinks, index)))
  }

  /** Removing the link just added gives back the links before. */
  lemma RemoveAddedLink(fs: FormState)
    ensures Trim(fs.newLink) != [] ==>
              RemoveLink(AddLink(fs), |fs.data.relatedLinks|).data.relatedLinks == fs.data.relatedLinks
  {
    var links := fs.data.relatedLinks;
    assert (links + [Trim(fs.newLink)])[..|links|] == links;
  }
}
