/**
  The non-widget logic of the desktop editor window: which local snippet is
  being edited, the list of (id, title) items shown on the left with their
  hidden flags, the save / delete / new actions against the local store, the
  title filter, and the checks made before a snippet is shared.

  Widgets are plain values: the list widget is `items` with the current row
  `selected`, the title box, the editor and the language box are strings,
  and the user's answers to dialogs are parameters.
 */
module Editor {
  import opened Wrappers
  import Text
  import SnippetDb
  import ShareApi

  /** The list text used for a snippet whose stored title is empty ("untitled"). */
  const Untitled: string := "\U{65E0}\U{6807}\U{9898}"

  /** The choices of the share dialog, in days; None stands for "forever". */
  const ShareDurations: seq<Option<int>> := [Some(1), Some(7), Some(30), None]

  /** One entry of the snippet list: the snippet id, the text shown, and whether the filter hides it. */
  datatype ListItem = ListItem(id: int, text: string, hidden: bool)

  /** The body the share action posts to the share service. */
  datatype ShareRequest = ShareRequest(content: string, language: string, expiresInDays: Option<int>)

  /** An item stays visible when the lower-cased search text occurs in its lower-cased text. */
  predicate Matches(search: string, text: string) {
    Text.Contains(Text.Lower(text), Text.Lower(search))
  }

  /** The list after `filter_snippets_list`: each item's hidden flag recomputed. */
  function Filtered(items: seq<ListItem>, search: string): seq<ListItem> {
    seq(|items|, i requires 0 <= i < |items| => items[i].(hidden := !Matches(search, items[i].text)))
  }

  /**
    The filter keeps ids, texts and order, and hides an item exactly when the
    lower-cased search text occurs nowhere in its lower-cased text.
   */
  lemma FilterHidesExactlyNonMatches(items: seq<ListItem>, search: string)
    ensures |Filtered(items, search)| == |items|
    ensures forall i :: 0 <= i < |items| ==>
              && Filtered(items, search)[i].id == items[i].id
              && Filtered(items, search)[i].text == items[i].text
              && (Filtered(items, search)[i].hidden <==>
                    forall p :: !Text.OccursAt(Text.Lower(items[i].text), Text.Lower(search), p))
  {
    forall i | 0 <= i < |items| {
      Text.ContainsIff(Text.Lower(items[i].text), Text.Lower(search));
    }
  }

  /** An empty search text hides nothing. */
  lemma EmptySearchHidesNothing(items: seq<ListItem>)
    ensures forall i :: 0 <= i < |items| ==> !Filtered(items, "")[i].hidden
  {
    forall i | 0 <= i < |items| {
      Text.EmptyIsContained(Text.Lower(items[i].text));
    }
  }

  /** The row of the first item carrying `id`, if any. */
  function FindItem(items: seq<ListItem>, id: int): (r: Option<nat>)
    ensures r.Some? ==> r.value < |items| && items[r.value].id == id
    ensures r.Some? ==> forall j :: 0 <= j < r.value ==> items[j].id != id
    ensures r.None? ==> forall j :: 0 <= j < |items| ==> items[j].id != id
  {
    if items == [] then None
    else if items[0].id == id then Some(0)
    else match FindItem(items[1..], id)
      case None => None
      case Some(j) => Some(j + 1)
  }

  /** The list after the save action renamed the item of snippet `id`. */
  function Renamed(items: seq<ListItem>, id: int, title: string): (r: seq<ListItem>)
    ensures |r| == |items|
    ensures forall j :: 0 <= j < |items| ==> r[j].id == items[j].id && r[j].hidden == items[j].hidden
    ensures forall j :: 0 <= j < |items| ==>
              r[j].text == if items[j].id == id && (forall k :: 0 <= k < j ==> items[k].id != id)
                           then title else items[j].text
  {
    match FindItem(items, id)
    case None => items
    case Some(i) => items[i := items[i].(text := title)]
  }

  /** The text an item of the loaded list shows for a stored title. */
  function DisplayTitle(title: string): (t: string)
    ensures t != []
    ensures title != [] ==> t == title
    ensures title == [] ==> t == Untitled
  {
    if title == [] then Untitled else title
  }

  /** The items `load_snippets_list` adds, one per listed snippet, in listing order. */
  function ItemsOf(listing: seq<SnippetDb.Summary>): seq<ListItem> {
    seq(|listing|, i requires 0 <= i < |listing| => ListItem(listing[i].id, DisplayTitle(listing[i].title), false))
  }

  /** The item at each position of `ItemsOf` is the listed snippet's. */
  lemma ItemsOfAt(listing: seq<SnippetDb.Summary>)
    ensures |ItemsOf(listing)| == |listing|
    ensures forall i :: 0 <= i < |listing| ==>
              ItemsOf(listing)[i] == ListItem(listing[i].id, DisplayTitle(listing[i].title), false)
  {
  }

  /**
    What the loaded list shows for the store's rows, given any listing of
    them: one visible item per stored snippet and no other, each snippet
    once, showing its title or the placeholder for an empty title, the most
    recently updated first.
   */
  lemma LoadedItemsMatchStore(rows: map<int, SnippetDb.Record>, listing: seq<SnippetDb.Summary>)
    requires SnippetDb.IsListing(rows, listing)
    ensures var items := ItemsOf(listing);
      && |items| == |rows|
      && (forall id :: id in rows ==> exists i :: 0 <= i < |items| && items[i].id == id)
      && (forall i :: 0 <= i < |items| ==>
            && items[i].id in rows
            && items[i].text == DisplayTitle(rows[items[i].id].title)
            && !items[i].hidden)
      && (forall i, j :: 0 <= i < j < |items| ==> items[i].id != items[j].id)
      && (forall i, j :: 0 <= i < j < |items| ==>
            rows[items[i].id].updatedAt >= rows[items[j].id].updatedAt)
  {
    var items := ItemsOf(listing);
    ItemsOfAt(listing);
    forall id | id in rows ensures exists i :: 0 <= i < |items| && items[i].id == id {
      var i :| 0 <= i < |listing| && listing[i].id == id;
      assert items[i].id == id;
    }
  }

  /** The create request the service receives for a share request. */
  function ToCreate(req: ShareRequest): ShareApi.SnippetCreate {
    ShareApi.SnippetCreate(req.content, req.language, req.expiresInDays)
  }

  /** Every duration the share dialog offers passes the service's check of `expires_in_days`. */
  lemma ShareDurationsAccepted(content: string, language: string, choice: nat)
    requires choice < |ShareDurations|
    ensures ShareApi.Validate(ToCreate(ShareRequest(content, language, ShareDurations[choice])))
              != Some(ShareApi.Unprocessable)
  {
  }

  /**
    The share action only refuses empty content, while the service refuses
    blank content: any non-empty whitespace-only snippet is sent and answered
    with 400.
   */
  lemma BlankContentPassesClientCheck(content: string, language: string, days: Option<int>)
    requires content != [] && Text.AllSpace(content)
    requires days.None? || days.value >= 1
    ensures ShareApi.Validate(ToCreate(ShareRequest(content, language, days))) == Some(ShareApi.BadRequest)
  {
  }

  /** The editor window's state. */
  class MainWindow {
    /** The local store the window reads and writes. */
    const store: SnippetDb.Store
    /** The values of the language box (lexer aliases); "plaintext" is always among them. */
    const languages: set<string>

    var currentId: Option<int>
    var items: seq<ListItem>
    /** The list widget's current row. */
    var selected: Option<nat>
    var search: string
    var titleText: string
    var contentText: string
    var language: string

    ghost predicate Valid()
      reads this, store
    {
      && store.Valid()
      && SnippetDb.DefaultLanguage in languages
      && (selected.Some? ==> selected.value < |items|)
    }

    /** Opens the window on `store` and loads the list. */
    constructor (store: SnippetDb.Store, languages: set<string>)
      requires store.Valid() && SnippetDb.DefaultLanguage in languages
      ensures Valid() && this.store == store && this.languages == languages
      ensures currentId.None? && selected.None?
      ensures search == [] && titleText == [] && contentText == [] && language == SnippetDb.DefaultLanguage
      ensures exists listing :: SnippetDb.IsListing(store.rows, listing) && items == Filtered(ItemsOf(listing), search)
    {
      this.store := store;
      this.languages := languages;
      currentId := None;
      items := [];
      selected := None;
      search := [];
      titleText := [];
      contentText := [];
      language := SnippetDb.DefaultLanguage;
      new;
      LoadSnippetsList();
    }

    /** `filter_snippets_list`: recomputes every item's hidden flag from the search text. */
    method FilterSnippetsList()
      modifies this`items
      ensures items == Filtered(old(items), search)
    {
      var needle := Text.Lower(search);
      var i := 0;
      while i < |items|
        invariant 0 <= i <= |items| == |old(items)|
        invariant forall j :: 0 <= j < i ==> items[j] == Filtered(old(items), search)[j]
        invariant forall j :: i <= j < |items| ==> items[j] == old(items)[j]
      {
        var itemText := Text.Lower(items[i].text);
        items := items[i := items[i].(hidden := !Text.Contains(itemText, needle))];
        i := i + 1;
      }
    }

    /** The search box's text changed: the list is filtered again. */
    method SearchChanged(text: string)
      modifies this`search, this`items
      ensures search == text && items == Filtered(old(items), text)
    {
      search := text;
      FilterSnippetsList();
    }

    /** `load_snippets_list`: replaces the list with the store's listing, then filters it. */
    method LoadSnippetsList()
      requires Valid()
      modifies this`items, this`selected
      ensures Valid() && selected.None?
      ensures exists listing :: SnippetDb.IsListing(store.rows, listing) && items == Filtered(ItemsOf(listing), search)
    {
      items := [];
      selected := None;
      var listing := store.GetAllSnippets();
      var i := 0;
      while i < |listing|
        invariant 0 <= i <= |listing|
        invariant items == ItemsOf(listing[..i]) && selected.None?
      {
        items := items + [ListItem(listing[i].id, DisplayTitle(listing[i].title), false)];
        i := i + 1;
      }
      assert listing[..i] == listing;
      FilterSnippetsList();
      assert SnippetDb.IsListing(store.rows, listing) && items == Filtered(ItemsOf(listing), search);
    }

    /** `on_snippet_selected`: the clicked row becomes current and its snippet is loaded. */
    method SelectSnippet(row: nat)
      requires Valid() && row < |items|
      modifies this`selected, this`currentId, this`titleText, this`contentText, this`language
      ensures Valid()
      ensures selected == Some(row) && currentId == Some(items[row].id)
      ensures var rec := store.GetSnippetById(items[row].id);
        && (rec.Some? ==> titleText == rec.value.title && contentText == rec.value.content
                          && language == if rec.value.language in languages then rec.value.language
                                         else SnippetDb.DefaultLanguage)
        && (rec.None? ==> titleText == old(titleText) && contentText == old(contentText)
                          && language == old(language))
    {
      currentId := Some(items[row].id);
      selected := Some(row);
      var rec := store.GetSnippetById(items[row].id);
      if rec.Some? {
        language := if rec.value.language in languages then rec.value.language else SnippetDb.DefaultLanguage;
        titleText := rec.value.title;
        contentText := rec.value.content;
      }
    }

    /** `new_snippet`: nothing is current and the editor is cleared. */
    method NewSnippet()
      modifies this`selected, this`currentId, this`titleText, this`contentText, this`language
      ensures selected.None? && currentId.None?
      ensures titleText == [] && contentText == [] && language == SnippetDb.DefaultLanguage
    {
      selected := None;
      currentId := None;
      titleText := [];
      contentText := [];
      language := SnippetDb.DefaultLanguage;
    }

    /**
      `save_snippet`: with a blank title or empty content nothing happens.
      Otherwise a new snippet is added to the store and put first in the list,
      or the current one is updated in the store and its first list item is
      renamed; then the list is filtered.
     */
    method SaveSnippet(now: int)
      requires Valid()
      modifies this, store
      ensures Valid()
      ensures titleText == old(titleText) && contentText == old(contentText)
      ensures language == old(language) && search == old(search)
      ensures Text.Strip(old(titleText)) == [] || old(contentText) == [] ==>
                unchanged(this) && unchanged(store)
      ensures Text.Strip(old(titleText)) != [] && old(contentText) != [] && old(currentId).None? ==>
                var title := Text.Strip(old(titleText));
                && currentId.Some?
                && currentId.value !in old(store.issued)
                && store.issued == old(store.issued) + {currentId.value}
                && store.rows == old(store.rows)[currentId.value := SnippetDb.Record(
                     currentId.value, title, old(language), old(contentText), now, now)]
                && items == Filtered([ListItem(currentId.value, title, false)] + old(items), search)
                && selected == Some(0)
      ensures Text.Strip(old(titleText)) != [] && old(contentText) != [] && old(currentId).Some? ==>
                var title := Text.Strip(old(titleText));
                var id := old(currentId).value;
                && currentId == old(currentId) && selected == old(selected)
                && store.issued == old(store.issued)
                && store.rows == (if id in old(store.rows)
                                  then old(store.rows)[id := old(store.rows)[id].(
                                         title := title, content := old(contentText),
                                         language := old(language), updatedAt := now)]
                                  else old(store.rows))
                && items == Filtered(Renamed(old(items), id, title), search)
    {
      var title := Text.Strip(titleText);
      var content := contentText;
      if title == [] || content == [] {
        return;
      }
      if currentId.None? {
        CreateCurrent(title, content, now);
      } else {
        UpdateCurrent(title, content, now);
      }
      FilterSnippetsList();
    }

    /** The create branch of the save action, before the list is filtered. */
    method CreateCurrent(title: string, content: string, now: int)
      requires Valid() && currentId.None?
      modifies this`currentId, this`items, this`selected, store
      ensures Valid()
      ensures currentId.Some? && currentId.value !in old(store.issued)
      ensures store.issued == old(store.issued) + {currentId.value}
      ensures store.rows == old(store.rows)[currentId.value := SnippetDb.Record(
                currentId.value, title, language, content, now, now)]
      ensures items == [ListItem(currentId.value, title, false)] + old(items)
      ensures selected == Some(0)
    {
      var newId := store.AddSnippet(title, content, Some(language), now);
      currentId := Some(newId);
      items := [ListItem(newId, title, false)] + items;
      selected := Some(0);
    }

    /** The update branch of the save action, before the list is filtered. */
    method UpdateCurrent(title: string, content: string, now: int)
      requires Valid() && currentId.Some?
      modifies this`items, store
      ensures Valid()
      ensures store.issued == old(store.issued)
      ensures var id := currentId.value;
        store.rows == (if id in old(store.rows)
                       then old(store.rows)[id := old(store.rows)[id].(
                              title := title, content := content, language := language, updatedAt := now)]
                       else old(store.rows))
      ensures items == Renamed(old(items), currentId.value, title)
    {
      var id := currentId.value;
      store.UpdateSnippet(id, title, content, language, now);
      RenameItem(id, title);
    }

    /** The loop of the save action that sets the text of the first item carrying `id`. */
    method RenameItem(id: int, title: string)
      modifies this`items
      ensures items == Renamed(old(items), id, title)
    {
      var i := 0;
      while i < |items|
        invariant 0 <= i <= |items|
        invariant items == old(items)
        invariant forall j :: 0 <= j < i ==> items[j].id != id
      {
        if items[i].id == id {
          items := items[i := items[i].(text := title)];
          break;
        }
        i := i + 1;
      }
    }

    /**
      `delete_snippet`: with no current snippet, no current row, or an
      unconfirmed prompt nothing happens; otherwise the snippet is deleted
      from the store, its row leaves the list and the editor is reset.
     */
    method DeleteSnippet(confirmed: bool)
      requires Valid()
      modifies this, store
      ensures Valid()
      ensures old(currentId).None? || old(selected).None? || !confirmed ==>
                unchanged(this) && unchanged(store)
      ensures old(currentId).Some? && old(selected).Some? && confirmed ==>
                var row := old(selected).value;
                && store.rows == old(store.rows) - {old(currentId).value}
                && store.issued == old(store.issued)
                && search == old(search)
                && items == old(items)[..row] + old(items)[row + 1..]
                && currentId.None? && selected.None?
                && titleText == [] && contentText == [] && language == SnippetDb.DefaultLanguage
    {
      if currentId.None? || selected.None? {
        return;
      }
      if confirmed {
        store.DeleteSnippet(currentId.value);
        var row := selected.value;
        items := items[..row] + items[row + 1..];
        NewSnippet();
      }
    }

    /**
      The checks of `share_snippet` before the request is posted: a current
      snippet, non-empty editor content and an accepted dialog. The request
      carries the editor's content and language and the chosen duration.
     */
    method ShareSnippet(accepted: bool, choice: nat) returns (req: Option<ShareRequest>)
      requires choice < |ShareDurations|
      ensures req.Some? <==> currentId.Some? && contentText != [] && accepted
      ensures req.Some? ==> req.value.content == contentText && req.value.language == language
      ensures req.Some? ==> req.value.expiresInDays == ShareDurations[choice]
      ensures req.Some? ==> req.value.expiresInDays in {Some(1), Some(7), Some(30), None}
      ensures req.Some? ==> ShareApi.Validate(ToCreate(req.value)) != Some(ShareApi.Unprocessable)
      ensures req.Some? ==>
                (ShareApi.Validate(ToCreate(req.value)) == Some(ShareApi.BadRequest) <==> Text.AllSpace(contentText))
    {
      if currentId.None? || contentText == [] {
        return None;
      }
      if !accepted {
        return None;
      }
      req := Some(ShareRequest(contentText, language, ShareDurations[choice]));
    }
  }
}
