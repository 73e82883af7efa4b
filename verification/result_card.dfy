/** The local state of one variant card (components/ResultCard.tsx): the
    text shown in its text area and whether that text is being edited. */
module ResultCard {
  import opened Types

  /** `content` and `isEditing` of one card. */
  datatype Card = Card(content: string, isEditing: bool)

  /** A freshly mounted card shows the variant's text, read-only. */
  function Mount(variant: OptimizedVariant): Card {
    Card(variant.content, false)
  }

  /** The effect keyed on `variant.content`: when the parent hands the card a
      variant with different text, the card's text is reset to it; a variant
      with the same text leaves the card alone. The editing flag is never
      touched by the effect. */
  function ReceiveVariant(c: Card, previous: OptimizedVariant, next: OptimizedVariant): Card {
    if next.content != previous.content then c.(content := next.content) else c
  }

  /** The edit/save button. */
  function ToggleEdit(c: Card): Card {
    c.(isEditing := !c.isEditing)
  }

  /** A change event of the text area, which is read-only unless editing. */
  function EditText(c: Card, text: string): Card {
    if c.isEditing then c.(content := text) else c
  }

  /** The text handed to the parent's replace and append callbacks: the
      card's own, possibly edited, text. */
  function Payload(c: Card): string {
    c.content
  }

  /** Things that can happen to a mounted card. */
  datatype CardEvent = Toggle | Type(text: string) | NewVariant(variant: OptimizedVariant)

  /** A card together with the variant it was last rendered with. */
  datatype Mounted = Mounted(card: Card, variant: OptimizedVariant)

  /** The card after one event. */
  function Handle(m: Mounted, e: CardEvent): Mounted {
    match e
    case Toggle => m.(card := ToggleEdit(m.card))
    case Type(text) => m.(card := EditText(m.card, text))
    case NewVariant(v) => Mounted(ReceiveVariant(m.card, m.variant, v), v)
  }

  /** The card after a sequence of events, oldest first. */
  function Replay(m: Mounted, events: seq<CardEvent>): Mounted
    decreases |events|
  {
    if events == [] then m else Replay(Handle(m, events[0]), events[1..])
  }

  predicate NoTyping(events: seq<CardEvent>) {
    forall i :: 0 <= i < |events| ==> !events[i].Type?
  }

  /** A freshly mounted card shows the variant's text, read-only, and keeps
      showing it whatever is typed before editing is switched on; that text
      is what replace and append would hand on. */
  lemma FreshCardShowsVariant(v: OptimizedVariant, texts: seq<string>)
    ensures var m := Replay(Mounted(Mount(v), v), seq(|texts|, i requires 0 <= i < |texts| => Type(texts[i])));
      m.card == Card(v.content, false) && Payload(m.card) == v.content
  {
    ReadOnlyIgnoresTyping(Mounted(Mount(v), v), texts);
  }

  /** The edit/save button flips the editing flag and nothing else: the
      text, edited or not, stays. */
  lemma ToggleFlipsOnlyEditing(m: Mounted)
    ensures Handle(m, Toggle).card.isEditing == !m.card.isEditing
    ensures Handle(m, Toggle).card.content == m.card.content
    ensures Handle(m, Toggle).variant == m.variant
  {
  }

  /** Toggling twice restores the card. */
  lemma ToggleTwiceIsIdentity(c: Card)
    ensures ToggleEdit(ToggleEdit(c)) == c
  {
  }

  /** A card nobody has typed into always shows its current variant's text,
      whatever toggling and re-rendering happened. */
  lemma {:induction false} UntouchedCardShowsVariant(m: Mounted, events: seq<CardEvent>)
    requires m.card.content == m.variant.content
    requires NoTyping(events)
    ensures Replay(m, events).card.content == Replay(m, events).variant.content
    decreases |events|
  {
    if events != [] {
      UntouchedCardShowsVariant(Handle(m, events[0]), events[1..]);
    }
  }

  /** Typing is ignored until the card is switched to editing: a card that is
      read-only throughout a run of typing keeps its text. */
  lemma {:induction false} ReadOnlyIgnoresTyping(m: Mounted, texts: seq<string>)
    requires !m.card.isEditing
    ensures Replay(m, seq(|texts|, i requires 0 <= i < |texts| => Type(texts[i]))) == m
    decreases |texts|
  {
    var events := seq(|texts|, i requires 0 <= i < |texts| => Type(texts[i]));
    if texts != [] {
      assert events[1..] == seq(|texts[1..]|, i requires 0 <= i < |texts[1..]| => Type(texts[1..][i]));
      ReadOnlyIgnoresTyping(m, texts[1..]);
    }
  }

  /** Opening the editor and typing puts the typed text into the payload, so
      replace and append hand on the edited text rather than the variant's. */
  lemma EditReachesPayload(v: OptimizedVariant, text: string)
    ensures Payload(Replay(Mounted(Mount(v), v), [Toggle, Type(text)]).card) == text
  {
    var m1 := Handle(Mounted(Mount(v), v), Toggle);
    var m2 := Handle(m1, Type(text));
    assert [Toggle, Type(text)][1..] == [Type(text)];
    assert [Type(text)][1..] == [];
    assert Replay(m1, [Type(text)]) == Replay(m2, []) == m2;
  }

  /** Re-rendering with a variant of the same text keeps the card as it is,
      local edits included. */
  lemma SameTextKeepsEdits(m: Mounted, v: OptimizedVariant)
    requires v.content == m.variant.content
    ensures Handle(m, NewVariant(v)).card == m.card
  {
  }

  /** A new variant text wipes local edits, even while the card is being
      edited. */
  lemma NewTextDiscardsEdits(m: Mounted, v: OptimizedVariant)
    requires v.content != m.variant.content
    ensures Handle(m, NewVariant(v)).card.content == v.content
    ensures Handle(m, NewVariant(v)).card.isEditing == m.card.isEditing
  {
  }
}
