/**
 * The glossary window as a state machine: the authoritative list of entries,
 * the search text, and the filtered view the table shows, with the add, edit,
 * remove and search actions. Modal dialogs are replaced by their answers,
 * passed in as parameters; the storage file and the dialogs are observed
 * through a ghost log of events.
 */
module App {
  import opened Text
  import opened Glossary

  /** The fixed password of the access gate. */
  const Password: string := "#.admin@sd123"

  /** The answer to a modal text prompt: the text entered, or nothing when it was dismissed. */
  datatype Answer = Entered(text: string) | Dismissed

  /** The answer to a yes/no/cancel confirmation, or the dialog closed without one. */
  datatype Confirmation = Yes | No | Cancel | Closed

  /** What the application shows the user or writes to storage, in order. */
  datatype Event =
    | AskedWord
    | AskedDefinition
    | AskedPassword
    | ShowedAccessDenied
    | AskedNewDefinition(current: string)
    | AskedConfirmation(message: string)
    | Saved(snapshot: seq<Term>)
    | TableChanged(rows: seq<Term>)

  /** A prompt answer the actions accept: entered, and not blank once trimmed. */
  predicate Usable(a: Answer) {
    a.Entered? && !IsBlank(a.text)
  }

  /** An answer is usable exactly when it was entered and holds a character `trim` keeps. */
  lemma UsableIffSomeText(a: Answer)
    ensures Usable(a) <==> a.Entered? && exists i :: 0 <= i < |a.text| && !IsTrimmable(a.text[i])
  {
    if a.Entered? {
      BlankIffAllTrimmable(a.text);
    }
  }

  /** The gate grants access only to the exact password entered and confirmed. */
  predicate Grants(password: Answer) {
    password == Entered(Password)
  }

  /** What the access gate shows: its prompt, then a denial message for a wrong entry. */
  function GateEvents(password: Answer): seq<Event> {
    [AskedPassword] + (if password.Entered? && password.text != Password then [ShowedAccessDenied] else [])
  }

  /** The gate always prompts first, and shows a denial exactly for an entered wrong password. */
  lemma GateDeniesWrongEntries(password: Answer)
    ensures GateEvents(password)[0] == AskedPassword
    ensures ShowedAccessDenied in GateEvents(password) <==> password.Entered? && !Grants(password)
  {
  }

  /** The confirmation question naming the entry about to be removed. */
  function RemovalQuestion(word: string): string {
    "Remover '" + word + "'?"
  }

  class GlossaryApp {
    /** The authoritative list of entries, in insertion order. */
    var data: seq<Term>
    /** The filtered view: positions in `data` of the rows the table shows. */
    var filtered: seq<nat>
    /** The text of the search field. */
    var query: string
    /** What the storage file holds. */
    ghost var stored: seq<Term>
    /** Everything shown or written so far. */
    ghost var log: seq<Event>

    /**
     * Between actions the view is the search of the current list and the
     * storage file holds the current list.
     */
    ghost predicate Valid()
      reads this
    {
      filtered == View(data, query) && stored == data
    }

    /** The entries of the table's rows, in order. */
    function Rows(): (r: seq<Term>)
      reads this
      requires Valid()
      ensures |r| <= |data|
      ensures query == [] ==> r == data
    {
      Project(data, filtered)
    }

    /** Loads `loaded` from storage and shows it unfiltered. */
    constructor (loaded: seq<Term>)
      ensures Valid()
      ensures data == loaded && query == [] && stored == loaded
      ensures Rows() == loaded
      ensures log == [TableChanged(loaded)]
    {
      data := loaded;
      filtered := AllIndices(|loaded|);
      query := [];
      stored := loaded;
      log := [];
      new;
      Refilter();
    }

    /** Recomputes the filtered view from the list and the search text. */
    method Refilter()
      modifies this`filtered, this`log
      ensures filtered == View(data, query)
      ensures log == old(log) + [TableChanged(Project(data, filtered))]
    {
      var needle := Lower(query);
      if needle == [] {
        filtered := AllIndices(|data|);
      } else {
        filtered := Select(data, needle);
      }
      log := log + [TableChanged(Project(data, filtered))];
    }

    /** Writes the whole list to storage. */
    method Persist()
      modifies this`stored, this`log
      ensures stored == data
      ensures log == old(log) + [Saved(data)]
    {
      stored := data;
      log := log + [Saved(data)];
    }

    /** Saves the list, then recomputes the view: how every accepted action ends. */
    method SaveAndRefilter()
      modifies this`stored, this`filtered, this`log
      ensures Valid() && data == old(data) && query == old(query)
      ensures log == old(log) + [Saved(data), TableChanged(Rows())]
    {
      Persist();
      Refilter();
    }

    /** The search field's text changed to `text`. */
    method Search(text: string)
      requires Valid()
      modifies this`query, this`filtered, this`log
      ensures Valid() && data == old(data) && query == text
      ensures log == old(log) + [TableChanged(Rows())]
    {
      query := text;
      Refilter();
    }

    /** The access gate: prompts for the password and reports whether it was right. */
    method CheckPassword(password: Answer) returns (granted: bool)
      modifies this`log
      ensures granted <==> Grants(password)
      ensures log == old(log) + GateEvents(password)
    {
      log := log + [AskedPassword];
      granted := false;
      if password.Entered? {
        if password.text == Password {
          granted := true;
        } else {
          log := log + [ShowedAccessDenied];
        }
      }
    }

    /**
     * Add: asks for a word, then (only for a usable word) a definition, and
     * appends the trimmed pair when both are usable.
     */
    method Add(word: Answer, definition: Answer)
      requires Valid()
      modifies this`data, this`filtered, this`stored, this`log
      ensures Valid() && query == old(query)
      ensures !Usable(word) ==>
        data == old(data) && log == old(log) + [AskedWord]
      ensures Usable(word) && !Usable(definition) ==>
        data == old(data) && log == old(log) + [AskedWord, AskedDefinition]
      ensures Usable(word) && Usable(definition) ==>
        data == old(data) + [Term(Trim(word.text), Trim(definition.text))] &&
        log == old(log) + [AskedWord, AskedDefinition, Saved(data), TableChanged(Rows())]
    {
      log := log + [AskedWord];
      if word.Entered? && !IsBlank(word.text) {
        log := log + [AskedDefinition];
        if definition.Entered? && !IsBlank(definition.text) {
          ghost var asked := log;
          assert asked == old(log) + [AskedWord, AskedDefinition];
          data := data + [Term(Trim(word.text), Trim(definition.text))];
          SaveAndRefilter();
        }
      }
    }

    /**
     * Edit: behind the access gate, replaces the definition of the entry on
     * the selected row (`-1` when none) with the trimmed new text.
     */
    method Edit(password: Answer, row: int, newDefinition: Answer)
      requires Valid()
      requires -1 <= row < |filtered|
      modifies this`data, this`filtered, this`stored, this`log
      ensures Valid() && query == old(query)
      ensures !Grants(password) ==>
        data == old(data) && log == old(log) + GateEvents(password)
      ensures Grants(password) && row == -1 ==>
        data == old(data) && log == old(log) + [AskedPassword]
      ensures Grants(password) && row != -1 ==>
        var k := old(filtered)[row];
        var asked := old(log) + [AskedPassword, AskedNewDefinition(old(data)[k].definition)];
        if Usable(newDefinition) then
          data == Redefine(old(data), k, Trim(newDefinition.text)) &&
          log == asked + [Saved(data), TableChanged(Rows())]
        else
          data == old(data) && log == asked
    {
      var granted := CheckPassword(password);
      if !granted {
        return;
      }
      if row == -1 {
        return;
      }
      var k := filtered[row];
      assert log == old(log) + [AskedPassword];
      ghost var asked := log + [AskedNewDefinition(data[k].definition)];
      assert asked == old(log) + [AskedPassword, AskedNewDefinition(old(data)[k].definition)];
      log := asked;
      if newDefinition.Entered? && !IsBlank(newDefinition.text) {
        data := Redefine(data, k, Trim(newDefinition.text));
        SaveAndRefilter();
      }
    }

    /**
     * Remove: behind the access gate, asks to confirm and removes the entry
     * on the selected row (`-1` when none) on a yes.
     */
    method Remove(password: Answer, row: int, confirm: Confirmation)
      requires Valid()
      requires -1 <= row < |filtered|
      modifies this`data, this`filtered, this`stored, this`log
      ensures Valid() && query == old(query)
      ensures !Grants(password) ==>
        data == old(data) && log == old(log) + GateEvents(password)
      ensures Grants(password) && row == -1 ==>
        data == old(data) && log == old(log) + [AskedPassword]
      ensures Grants(password) && row != -1 ==>
        var k := old(filtered)[row];
        var asked := old(log) + [AskedPassword, AskedConfirmation(RemovalQuestion(old(data)[k].word))];
        if confirm == Yes then
          data == RemoveAt(old(data), k) &&
          log == asked + [Saved(data), TableChanged(Rows())]
        else
          data == old(data) && log == asked
    {
      var granted := CheckPassword(password);
      if !granted {
        return;
      }
      if row == -1 {
        return;
      }
      var k := filtered[row];
      assert log == old(log) + [AskedPassword];
      ghost var asked := log + [AskedConfirmation(RemovalQuestion(data[k].word))];
      assert asked == old(log) + [AskedPassword, AskedConfirmation(RemovalQuestion(old(data)[k].word))];
      log := asked;
      if confirm == Yes {
        data := RemoveAt(data, k);
        SaveAndRefilter();
      }
    }

    /** The table's row count: the size of the filtered view. */
    function RowCount(): (n: nat)
      reads this
      requires Valid()
      ensures n == |Rows()| && n <= |data|
    {
      |filtered|
    }

    /** The entry shown on table row `row`; the same object as in the list. */
    function TermAt(row: int): (t: Term)
      reads this
      requires Valid() && 0 <= row < RowCount()
      ensures t == Rows()[row]
      ensures t in data && Matches(t, Lower(query))
    {
      ViewKeepsMatches(data, query);
      data[filtered[row]]
    }

    /** The table cell at `row`, `col`, as UTF-16 text: the word in column 0, the shown definition otherwise. */
    function ValueAt(row: int, col: int): (v: seq<CodeUnit>)
      reads this
      requires Valid() && 0 <= row < RowCount()
      ensures col == 0 ==> v == Utf16(TermAt(row).word)
      ensures col != 0 ==> v == Shown(TermAt(row).definition) && |v| <= MaxShown + |Ellipsis|
    {
      var t := data[filtered[row]];
      if col == 0 then Utf16(t.word) else Shown(t.definition)
    }
  }
}
