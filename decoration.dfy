/** The highlighter attached to the editor: it keeps the decorations of the
    active editor equal to the matches of the search terms in that editor's
    document, and coalesces bursts of events into one rescan with a debounce
    timer.

    The host (the editor and its timer queue) is modelled by two small
    classes and one set: `Document` holds the text, `Editor` holds the
    decorations last set on it, and `Decorator.live` holds the timer handles
    the host has scheduled and not yet fired or cancelled. Time itself is not
    modelled: a timer fires when the host calls `Fire` with its handle. */
module Decoration {
  import opened Alternation
  import opened MatchScan

  /** A text document; the host replaces its text when the user edits it. */
  class Document {
    var text: string

    constructor (text: string)
      ensures this.text == text
    {
      this.text := text;
    }

    /** An edit made by the user, seen by the model as the new full text. */
    method Edit(text: string)
      modifies this
      ensures this.text == text
    {
      this.text := text;
    }
  }

  /** A text editor showing one document, with the ranges currently
      decorated in it. */
  class Editor {
    const document: Document
    var decorations: seq<Range>

    constructor (document: Document)
      ensures this.document == document && decorations == []
    {
      this.document := document;
      decorations := [];
    }

    /** `setDecorations`: the given ranges replace whatever was decorated
        before. */
    method SetDecorations(ranges: seq<Range>)
      modifies this
      ensures decorations == ranges
    {
      decorations := ranges;
    }
  }

  /** The state of one activation: the search terms, the active editor, the
      pending-timer handle `timeout`, and, on the host side, the set of
      handles still scheduled and the next handle the host will hand out. */
  class Decorator {
    const searchTerms: seq<string>
    var activeEditor: Editor?
    /** `None` is the initial `null`. The handle is never reset after its
        timer fires, so it may name a timer that is no longer scheduled. */
    var timeout: Option<nat>
    /** The host's schedule, which the extension never reads. */
    ghost var live: set<nat>
    /** The handle the host's `setTimeout` will return next. */
    var nextTimer: nat

    /** The debounce invariant: at most one timer is scheduled, and it is the
        one `timeout` holds; handles are fresh. The terms are usable by the
        match loop. */
    ghost predicate Valid()
      reads this
    {
      && LiteralTerms(searchTerms)
      && live <= (if timeout.Some? then {timeout.value} else {})
      && (timeout.Some? ==> timeout.value < nextTimer)
    }

    /** A new timer has just replaced any earlier one: the handle handed out
        was `oldNext`, and it is the only one scheduled. */
    ghost predicate Rescheduled(oldNext: nat)
      reads this
    {
      timeout == Some(oldNext) && live == {oldNext} && nextTimer == oldNext + 1
    }

    /** `activate`: remember the active editor (possibly none) with no timer
        pending, and schedule a first update when there is an editor. */
    constructor (searchTerms: seq<string>, editor: Editor?)
      requires LiteralTerms(searchTerms)
      ensures Valid()
      ensures this.searchTerms == searchTerms && activeEditor == editor
      ensures editor != null ==> Rescheduled(0)
      ensures editor == null ==> timeout == None && live == {} && nextTimer == 0
    {
      this.searchTerms := searchTerms;
      activeEditor := editor;
      timeout := None;
      live := {};
      nextTimer := 0;
      new;
      if editor != null {
        Trigger();
      }
    }

    /** `triggerUpdateDecorations`: cancel the timer `timeout` names, if any
        (cancelling one that already fired does nothing), and schedule a new
        one. Whatever was pending before, exactly one update is pending
        after. */
    method Trigger()
      requires Valid()
      modifies this
      ensures Valid()
      ensures activeEditor == old(activeEditor)
      ensures Rescheduled(old(nextTimer))
    {
      if timeout.Some? {
        live := live - {timeout.value};
      }
      timeout := Some(nextTimer);
      live := live + {nextTimer};
      nextTimer := nextTimer + 1;
    }

    /** `updateDecorations`: with no active editor nothing happens; otherwise
        the editor's decorations become exactly the matches of the terms in
        its document's current text. */
    method UpdateDecorations()
      requires Valid()
      modifies activeEditor
      ensures unchanged(this)
      ensures activeEditor != null ==>
        activeEditor.decorations == Matches(activeEditor.document.text, searchTerms)
    {
      if activeEditor == null {
        return;
      }
      LiteralTermsNonEmpty(searchTerms);
      var matched := ScanMatches(activeEditor.document.text, searchTerms);
      activeEditor.SetDecorations(matched);
    }

    /** The host fires the scheduled timer `h`: it leaves the schedule, so
        nothing is pending any more, and the update runs against whatever
        editor is active now. */
    method Fire(h: nat)
      requires Valid() && h in live
      modifies this, activeEditor
      ensures Valid()
      ensures live == {}
      ensures timeout == old(timeout) && nextTimer == old(nextTimer)
      ensures activeEditor == old(activeEditor)
      ensures activeEditor != null ==>
        activeEditor.decorations == Matches(activeEditor.document.text, searchTerms)
    {
      live := live - {h};
      UpdateDecorations();
    }

    /** `onDidChangeActiveTextEditor`: the new editor (possibly none) becomes
        the active one; an update is scheduled only when there is one. */
    method OnDidChangeActiveTextEditor(editor: Editor?)
      requires Valid()
      modifies this
      ensures Valid()
      ensures activeEditor == editor
      ensures editor != null ==> Rescheduled(old(nextTimer))
      ensures editor == null ==>
        timeout == old(timeout) && live == old(live) && nextTimer == old(nextTimer)
    {
      activeEditor := editor;
      if editor != null {
        Trigger();
      }
    }

    /** `onDidChangeTextDocument` for an edit of `document`: an update is
        scheduled exactly when there is an active editor and it shows that
        very document. */
    method OnDidChangeTextDocument(document: Document)
      requires Valid()
      modifies this
      ensures Valid()
      ensures activeEditor == old(activeEditor)
      ensures activeEditor != null && document == activeEditor.document ==>
        Rescheduled(old(nextTimer))
      ensures !(activeEditor != null && document == activeEditor.document) ==>
        timeout == old(timeout) && live == old(live) && nextTimer == old(nextTimer)
    {
      if activeEditor != null && document == activeEditor.document {
        Trigger();
      }
    }
  }

  /** A burst of typing: activation and two edits each schedule an update,
      but only the last timer survives; an edit of another document schedules
      nothing; and when the surviving timer fires the decorations are the
      matches of the final text. */
  method TypingBurst()
  {
    var terms := ["NT", "NTK"];
    assert LiteralTerm(terms[0]) && LiteralTerm(terms[1]);
    var doc := new Document("ntk");
    var editor := new Editor(doc);
    var d := new Decorator(terms, editor);
    assert d.live == {0};
    doc.Edit("ntk NT");
    d.OnDidChangeTextDocument(doc);
    doc.Edit("ntk NTK");
    d.OnDidChangeTextDocument(doc);
    assert d.live == {2};
    var other := new Document("nt");
    d.OnDidChangeTextDocument(other);
    assert d.live == {2};
    d.Fire(2);
    assert d.live == {};
    FirstTermWins();
    assert editor.decorations == [Range(0, 2), Range(4, 6)];
  }
}
