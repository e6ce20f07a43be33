/**
 * One chip: an immutable key, payload, label and indelible flag, plus the one
 * mutable bit of state, whether the chip is selected. The view the chip
 * inflates and styles is not modelled.
 */
module ChipEntity {
  import opened Optional

  /**
   * A Java string: its UTF-16 code units, which is what length() and
   * substring count. A character outside the Basic Multilingual Plane is a
   * surrogate pair and counts twice.
   */
  type JavaString = seq<bv16>

  /** Labels longer than this many code units are cut. */
  const MAX_LABEL_LENGTH: nat := 30

  /** Appended to a label that was cut: three full stops. */
  const ELLIPSIS: JavaString := [0x2E, 0x2E, 0x2E]

  /** The label as the chip stores it: unchanged when short enough, otherwise cut and marked. */
  function TruncateLabel(s: JavaString): JavaString
  {
    if |s| > MAX_LABEL_LENGTH then s[..MAX_LABEL_LENGTH] + ELLIPSIS else s
  }

  /**
   * A stored label is never longer than 33 code units; a short label is kept
   * as it is, and a long one becomes its first 30 code units followed by the
   * ellipsis.
   */
  lemma TruncateLabelShape(s: JavaString)
    ensures |TruncateLabel(s)| <= MAX_LABEL_LENGTH + |ELLIPSIS|
    ensures |s| <= MAX_LABEL_LENGTH ==> TruncateLabel(s) == s
    ensures |s| > MAX_LABEL_LENGTH ==>
      && |TruncateLabel(s)| == MAX_LABEL_LENGTH + |ELLIPSIS|
      && TruncateLabel(s)[..MAX_LABEL_LENGTH] == s[..MAX_LABEL_LENGTH]
      && TruncateLabel(s)[MAX_LABEL_LENGTH..] == ELLIPSIS
  {
  }

  /** A 45-code-unit label is stored as its first 30 code units and the ellipsis. */
  lemma TruncateLongLabel(s: JavaString)
    requires |s| == 45
    ensures TruncateLabel(s) == s[..30] + ELLIPSIS
  {
  }

  /** U+1F600 GRINNING FACE, a surrogate pair in UTF-16. */
  const GRINNING_FACE: JavaString := [0xD83D, 0xDE00]

  /** n grinning faces in a row. */
  function Faces(n: nat): (r: JavaString)
    ensures |r| == 2 * n
  {
    if n == 0 then [] else Faces(n - 1) + GRINNING_FACE
  }

  /**
   * Sixteen characters outside the Basic Multilingual Plane are 32 code
   * units, so the label is cut: fifteen of them are kept.
   */
  lemma SixteenFacesLabel()
    ensures TruncateLabel(Faces(16)) == Faces(15) + ELLIPSIS
  {
    assert Faces(16)[..30] == Faces(15);
  }

  /**
   * Twenty-nine letters and one grinning face are 31 code units: the cut
   * falls inside the surrogate pair and keeps its high half alone.
   */
  lemma CutSplitsSurrogatePair()
    ensures var letters := seq(29, i => 0x61 as bv16);
      TruncateLabel(letters + GRINNING_FACE) == letters + [0xD83D] + ELLIPSIS
  {
    var letters := seq(29, i => 0x61 as bv16);
    assert (letters + GRINNING_FACE)[..30] == letters + [0xD83D];
  }

  /**
   * The selection flag is the chip's only mutable state; key, payload,
   * label and the indelible flag are fixed at construction.
   */
  class Chip<K, V(==)> {
    const key: K
    const data: V
    const indelible: bool
    const labelText: JavaString
    var selected: bool

    /** An indelible chip is never selected. */
    ghost predicate Valid()
      reads this
    {
      indelible ==> !selected
    }

    /**
     * A chip starts unselected. Without a label it takes the display string of
     * its payload; either way the label is then cut to its stored form.
     */
    constructor (displayName: Option<JavaString>, key: K, data: V, indelible: bool, displayString: V -> JavaString)
      ensures this.key == key && this.data == data && this.indelible == indelible
      ensures this.labelText == TruncateLabel(if displayName.Some? then displayName.value else displayString(data))
      ensures !selected && Valid()
    {
      this.key := key;
      this.data := data;
      this.indelible := indelible;
      this.labelText := TruncateLabel(if displayName.Some? then displayName.value else displayString(data));
      selected := false;
    }

    /** Indelible chips ignore the request; any other chip takes the new value. */
    method SetSelected(isSelected: bool)
      requires Valid()
      modifies this
      ensures Valid()
      ensures selected == if indelible then old(selected) else isSelected
    {
      if indelible {
        return;
      }
      selected := isSelected;
    }

    /** Chips are equal when their payloads are; key, label and indelible flag are not compared. */
    predicate Equals(other: Chip<K, V>)
    {
      data == other.data
    }
  }

  /**
   * Chip equality is an equivalence (the first three clauses), and it looks
   * at the payload alone: chips with different keys, labels or flags are
   * equal exactly when their payloads are.
   */
  lemma ChipEqualityByPayload<K, V>(a: Chip<K, V>, b: Chip<K, V>, c: Chip<K, V>)
    ensures a.Equals(a)
    ensures a.Equals(b) <==> b.Equals(a)
    ensures a.Equals(b) && b.Equals(c) ==> a.Equals(c)
    ensures a.Equals(b) <==> a.data == b.data
  {
  }
}
