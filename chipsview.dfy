/**
 * The chips input field: an insertion-ordered collection of chips keyed by
 * caller-chosen keys, a text buffer, the select-then-delete interaction on
 * chips, and the interception of backspace on an empty buffer.
 *
 * Every change to the collection re-runs the row layout and applies the
 * returned leading margin to the text's first line. Views, spans, colours,
 * scrolling and the deferred re-run of a layout that was not ready are not
 * modelled; each layout run is recorded with its "move the cursor" flag.
 */
module ChipsInput {
  import opened Optional
  import opened ChipEntity
  import opened VerticalLayout

  /**
   * The leading margin of the text's first line: the indent of the span the
   * field created last, and whether that span is attached to the text now in
   * the buffer (replacing the text drops it).
   */
  datatype LeadingMargin = LeadingMargin(indent: nat, attached: bool)

  /** The notifications the field raises, in order. */
  datatype Event<V> = Added(data: V) | Deleted(data: V)

  /** The Android key-event constants the interception compares against. */
  const ACTION_DOWN: int := 0
  const ACTION_UP: int := 1
  const KEYCODE_DEL: int := 67

  datatype KeyEvent = KeyEvent(action: int, keyCode: int)

  /**
   * A call passed on to the wrapped input connection. Where the field passes
   * a call on, its own answer is the wrapped connection's answer.
   */
  datatype Forwarded = ForwardKey(event: KeyEvent) | ForwardDelete(beforeLength: int, afterLength: int)

  /** The backspace key press, as a key event and as the IME's deletion of one character. */
  const DEL_DOWN := KeyEvent(ACTION_DOWN, KEYCODE_DEL)
  const DEL_UP := KeyEvent(ACTION_UP, KEYCODE_DEL)

  /** No key occurs twice. */
  predicate Distinct<K(==)>(ks: seq<K>)
  {
    forall k :: k in ks ==> multiset(ks)[k] <= 1
  }

  /** The keys of ks that are in keep, in their order in ks: what an ordered map keeps when entries are removed. */
  function Keep<K(==)>(ks: seq<K>, keep: set<K>): seq<K>
  {
    if ks == [] then []
    else Keep(ks[..|ks| - 1], keep) + (if ks[|ks| - 1] in keep then [ks[|ks| - 1]] else [])
  }

  lemma {:induction false} KeepMembership<K>(ks: seq<K>, keep: set<K>, k: K)
    ensures k in Keep(ks, keep) <==> k in ks && k in keep
  {
    if ks != [] {
      KeepMembership(ks[..|ks| - 1], keep, k);
      assert ks == ks[..|ks| - 1] + [ks[|ks| - 1]];
    }
  }

  /** Filtering keeps every occurrence of a kept key and none of the others. */
  lemma {:induction false} KeepCount<K>(ks: seq<K>, keep: set<K>, k: K)
    ensures multiset(Keep(ks, keep))[k] == if k in keep then multiset(ks)[k] else 0
  {
    if ks != [] {
      var init, last := ks[..|ks| - 1], ks[|ks| - 1];
      KeepCount(init, keep, k);
      assert ks == init + [last];
    }
  }

  lemma KeepDistinct<K>(ks: seq<K>, keep: set<K>)
    requires Distinct(ks)
    ensures Distinct(Keep(ks, keep))
  {
    forall k | k in Keep(ks, keep)
      ensures multiset(Keep(ks, keep))[k] <= 1
    {
      KeepCount(ks, keep, k);
      KeepMembership(ks, keep, k);
    }
  }

  /** Filtering works element by element, so it keeps the relative order of what it keeps. */
  lemma {:induction false} KeepConcat<K>(a: seq<K>, b: seq<K>, keep: set<K>)
    ensures Keep(a + b, keep) == Keep(a, keep) + Keep(b, keep)
  {
    if b != [] {
      var init, last := b[..|b| - 1], b[|b| - 1];
      assert (a + b)[..|a + b| - 1] == a + init;
      KeepConcat(a, init, keep);
    } else {
      assert a + b == a;
    }
  }

  /** Filtering leaves the keys as they are exactly when every key is to be kept. */
  lemma {:induction false} KeepUnchanged<K>(ks: seq<K>, keep: set<K>)
    ensures Keep(ks, keep) == ks <==> forall k :: k in ks ==> k in keep
  {
    if ks != [] {
      var init, last := ks[..|ks| - 1], ks[|ks| - 1];
      KeepUnchanged(init, keep);
      assert ks == init + [last];
      if Keep(ks, keep) == ks {
        forall k | k in ks
          ensures k in keep
        {
          KeepMembership(ks, keep, k);
        }
      }
    }
  }

  /** Removing the key of the last entry of distinct keys drops exactly the last key. */
  lemma KeepDropsLast<K>(ks: seq<K>, domain: set<K>)
    requires Distinct(ks) && ks != []
    requires forall k :: k in ks ==> k in domain
    ensures Keep(ks, domain - {ks[|ks| - 1]}) == ks[..|ks| - 1]
  {
    var init, last := ks[..|ks| - 1], ks[|ks| - 1];
    assert ks == init + [last];
    assert multiset(ks)[last] == multiset(init)[last] + 1;
    KeepUnchanged(init, domain - {last});
  }

  /**
   * A collection is coherent when its keys are distinct and are exactly the
   * keys of the map, each chip is stored under its own key and keeps its own
   * invariant, and at most one chip is selected.
   */
  ghost predicate Coherent<K, V>(keys: seq<K>, chips: map<K, Chip<K, V>>, footprint: set<Chip<K, V>>)
    reads footprint
  {
    && (forall k :: k in chips ==> chips[k] in footprint)
    && Distinct(keys)
    && (forall k :: k in keys ==> k in chips)
    && (forall k :: k in chips ==> k in keys)
    && (forall k :: k in chips ==> chips[k].key == k && chips[k].Valid())
    && (forall k1, k2 :: k1 in chips && k2 in chips && chips[k1].selected && chips[k2].selected ==> k1 == k2)
  }

  /** The keys of the selected chips. */
  ghost function Selected<K, V>(chips: map<K, Chip<K, V>>, footprint: set<Chip<K, V>>): set<K>
    reads footprint
  {
    set k | k in chips && chips[k] in footprint && chips[k].selected
  }

  /** Putting an unselected chip under its own key keeps the collection coherent and unselects that key. */
  lemma CoherentPut<K, V>(keys: seq<K>, chips: map<K, Chip<K, V>>, footprint: set<Chip<K, V>>, key: K, chip: Chip<K, V>)
    requires Coherent(keys, chips, footprint)
    requires chip.key == key && chip.Valid() && !chip.selected
    ensures Coherent(if key in chips then keys else keys + [key], chips[key := chip], footprint + {chip})
    ensures Selected(chips[key := chip], footprint + {chip}) == Selected(chips, footprint) - {key}
  {
    if key !in chips {
      assert multiset(keys + [key]) == multiset(keys) + multiset{key};
    }
  }

  /** Removing a key, and its entry, keeps the collection coherent. */
  lemma CoherentRemove<K, V>(keys: seq<K>, chips: map<K, Chip<K, V>>, footprint: set<Chip<K, V>>, key: K)
    requires Coherent(keys, chips, footprint)
    ensures Coherent(Keep(keys, chips.Keys - {key}), chips - {key}, footprint)
    ensures Selected(chips - {key}, footprint) == Selected(chips, footprint) - {key}
  {
    var remaining := Keep(keys, chips.Keys - {key});
    KeepDistinct(keys, chips.Keys - {key});
    forall k | k in remaining
      ensures k in chips && k != key
    {
      KeepMembership(keys, chips.Keys - {key}, k);
    }
    forall k | k in chips && k != key
      ensures k in remaining
    {
      KeepMembership(keys, chips.Keys - {key}, k);
    }
  }

  /** The entries of chips whose key is in keep. */
  function Restricted<K, V>(chips: map<K, V>, keep: set<K>): (r: map<K, V>)
    ensures r.Keys == chips.Keys * keep
    ensures forall k :: k in r ==> r[k] == chips[k]
  {
    map k | k in chips && k in keep :: chips[k]
  }

  /** Keeping only the keys in keep, and their entries, keeps the collection coherent. */
  lemma CoherentKeep<K, V>(keys: seq<K>, chips: map<K, Chip<K, V>>, footprint: set<Chip<K, V>>, keep: set<K>)
    requires Coherent(keys, chips, footprint)
    ensures Coherent(Keep(keys, keep), Restricted(chips, keep), footprint)
    ensures Selected(Restricted(chips, keep), footprint) == Selected(chips, footprint) * keep
  {
    var remaining := Keep(keys, keep);
    KeepDistinct(keys, keep);
    forall k | k in remaining
      ensures k in chips && k in keep
    {
      KeepMembership(keys, keep, k);
    }
    forall k | k in chips && k in keep
      ensures k in remaining
    {
      KeepMembership(keys, keep, k);
    }
  }

  /** What measuring the chips' views yields, in collection order: the layout engine's input. */
  function Measurements<K, V>(keys: seq<K>, chips: map<K, Chip<K, V>>, measure: JavaString -> Metrics): (ms: seq<Metrics>)
    requires forall k :: k in keys ==> k in chips
    ensures |ms| == |keys|
  {
    seq(|keys|, i requires 0 <= i < |keys| => measure(chips[keys[i]].labelText))
  }

  class ChipsView<K(==), V(==)> {
    /** The payload's display string, used when a chip is added without a label. */
    const displayString: V -> JavaString
    /** What measuring a chip's view yields, given its label. */
    const measure: JavaString -> Metrics
    const rootLayout: ChipsVerticalLinearLayout

    /** The collection: keys in insertion order, and the chip of each key. */
    var keys: seq<K>
    var chips: map<K, Chip<K, V>>
    /** Every chip object the collection holds (and possibly some it held before). */
    ghost var Footprint: set<Chip<K, V>>
    /** The text buffer and whether it has focus. */
    var text: JavaString
    var focused: bool
    var margin: LeadingMargin
    /** One entry per layout run, recording whether it asked to move the cursor to the end. */
    var layoutRequests: seq<bool>
    var events: seq<Event<V>>

    /** The collection is coherent and every chip it holds is in the footprint. */
    ghost predicate Valid()
      reads this`keys, this`chips, this`Footprint, Footprint
    {
      Coherent(keys, chips, Footprint)
    }

    ghost function SelectedKeys(): set<K>
      reads this`chips, this`Footprint, Footprint
    {
      Selected(chips, Footprint)
    }

    /**
     * The last layout run saw the current chips: when the container was
     * measured, the rows and the margin are the engine's; otherwise no rows
     * exist and the margin is the one applied before.
     */
    ghost predicate LaidOut(previousMargin: LeadingMargin)
      reads this`keys, this`chips, this`margin, rootLayout
      requires forall k :: k in keys ==> k in chips
    {
      match Layout(rootLayout.width, Measurements(keys, chips, measure))
      case NotReady => margin == previousMargin && rootLayout.lineLayouts == []
      case Ready(rows, params) => margin == LeadingMargin(params.lineMargin, true) && rootLayout.lineLayouts == rows
    }

    /** Nothing the field shows or reports has changed. */
    twostate predicate Unchanged()
      reads this, Footprint, rootLayout
    {
      && keys == old(keys) && chips == old(chips) && events == old(events)
      && layoutRequests == old(layoutRequests) && margin == old(margin)
      && text == old(text) && focused == old(focused)
      && rootLayout.lineLayouts == old(rootLayout.lineLayouts) && rootLayout.width == old(rootLayout.width)
      && Footprint == old(Footprint) && SelectedKeys() == old(SelectedKeys())
    }

    /**
     * The effect of an interaction with the chip under key k: a selected chip
     * is removed, with a deletion notification; any other chip becomes the one
     * selected chip (or none, when indelible). Two layout runs happen, the
     * second moving the cursor only after a removal.
     */
    twostate predicate Interacted(k: K)
      requires old(k in chips)
      reads this, Footprint
    {
      var chip := old(chips[k]);
      && text == old(text) && focused == old(focused)
      && if old(chip.selected) then
           && keys == Keep(old(keys), old(chips).Keys - {k})
           && chips == old(chips) - {k}
           && events == old(events) + [Deleted(chip.data)]
           && layoutRequests == old(layoutRequests) + [false, true]
           && SelectedKeys() == {}
         else
           && keys == old(keys) && chips == old(chips) && events == old(events)
           && layoutRequests == old(layoutRequests) + [false, false]
           && SelectedKeys() == if chip.indelible then {} else {k}
    }

    /**
     * The chip under key is a new chip for data, unselected and carrying the
     * normalised label, and it was stored as Stored says.
     */
    twostate predicate Inserted(displayName: Option<JavaString>, key: K, data: V, isIndelible: bool)
      reads this`keys, this`chips, this`Footprint, this`events, Footprint
    {
      && key in chips && fresh(chips[key])
      && chips[key].data == data && chips[key].indelible == isIndelible
      && chips[key].labelText == TruncateLabel(if displayName.Some? then displayName.value else displayString(data))
      && Stored(key, chips[key])
      && events == old(events) + [Added(data)]
    }

    /**
     * The unselected chip was put under key: a new key goes last, an existing
     * key keeps its place and gets the new chip.
     */
    twostate predicate Stored(key: K, new chip: Chip<K, V>)
      reads this`keys, this`chips, this`Footprint, Footprint
    {
      && keys == (if key in old(chips) then old(keys) else old(keys) + [key])
      && chips == old(chips)[key := chip]
      && Footprint == old(Footprint) + {chip}
      && !chip.selected
      && SelectedKeys() == old(SelectedKeys()) - {key}
    }

    /** A fresh field: no chips, empty text; the first layout run finds no width yet. */
    constructor (displayString: V -> JavaString, measure: JavaString -> Metrics)
      ensures Valid() && fresh(rootLayout)
      ensures keys == [] && chips == map[] && text == [] && !focused
      ensures events == [] && layoutRequests == [false] && margin == LeadingMargin(0, false) && rootLayout.width == 0
    {
      this.displayString := displayString;
      this.measure := measure;
      rootLayout := new ChipsVerticalLinearLayout();
      keys := [];
      chips := map[];
      Footprint := {};
      text := [];
      focused := false;
      margin := LeadingMargin(0, false);
      layoutRequests := [];
      events := [];
      new;
      OnChipsChanged(false);
    }

    /** Runs the layout engine over the chips and applies the margin it returns. */
    method OnChipsChanged(moveCursor: bool)
      requires Valid()
      modifies this`margin, this`layoutRequests, rootLayout
      ensures Valid()
      ensures layoutRequests == old(layoutRequests) + [moveCursor]
      ensures rootLayout.width == old(rootLayout.width)
      ensures LaidOut(old(margin))
    {
      var params := rootLayout.OnChipsChanged(Measurements(keys, chips, measure));
      layoutRequests := layoutRequests + [moveCursor];
      if params.Some? {
        margin := LeadingMargin(params.value.lineMargin, true);
      }
    }

    /**
     * Puts a new chip under key, without checking for an existing one: a new
     * key goes last, an existing key keeps its place and gets the new chip.
     */
    method AddChipWithFlag(displayName: Option<JavaString>, key: K, data: V, isIndelible: bool)
      requires Valid()
      modifies this, rootLayout
      ensures Valid()
      ensures Inserted(displayName, key, data, isIndelible)
      ensures layoutRequests == old(layoutRequests) + [true]
      ensures text == old(text) && focused == old(focused) && rootLayout.width == old(rootLayout.width)
      ensures LaidOut(old(margin))
    {
      Put(displayName, key, data, isIndelible);
      OnChipsChanged(true);
    }

    /** Creating the chip, the map put and the notification, which precede the layout run of an addition. */
    method Put(displayName: Option<JavaString>, key: K, data: V, isIndelible: bool)
      requires Valid()
      modifies this`keys, this`chips, this`Footprint, this`events
      ensures Valid()
      ensures Inserted(displayName, key, data, isIndelible)
    {
      var chip := new Chip(displayName, key, data, isIndelible, displayString);
      Store(key, chip);
      Notify(Added(data));
    }

    /** Delivers a notification to the listener. */
    method Notify(event: Event<V>)
      modifies this`events
      ensures events == old(events) + [event]
    {
      events := events + [event];
    }

    /** The ordered-map put of an unselected chip under its own key. */
    method Store(key: K, chip: Chip<K, V>)
      requires Valid() && chip.key == key && chip.Valid() && !chip.selected
      modifies this`keys, this`chips, this`Footprint
      ensures Valid()
      ensures Stored(key, chip)
    {
      ghost var keys0, chips0, footprint0 := keys, chips, Footprint;
      keys := if key in chips then keys else keys + [key];
      chips := chips[key := chip];
      Footprint := Footprint + {chip};
      CoherentPut(keys0, chips0, footprint0, key, chip);
    }

    /**
     * Adds a deletable chip unless the key is already present, in which case
     * nothing happens; after adding, the text buffer is cleared and the span
     * created last (by this layout run, or earlier when the container is not
     * measured yet) is attached to it again.
     */
    method AddChip(displayName: Option<JavaString>, key: K, data: V)
      requires Valid()
      modifies this, rootLayout
      ensures Valid()
      ensures key in old(chips) ==> Unchanged()
      ensures key !in old(chips) ==>
        && Inserted(displayName, key, data, false)
        && layoutRequests == old(layoutRequests) + [true]
        && text == [] && focused == old(focused) && rootLayout.width == old(rootLayout.width)
        && LaidOut(old(margin).(attached := true))
    {
      if key in chips {
        return;
      }
      AddChipWithFlag(displayName, key, data, false);
      ResetText();
    }

    /**
     * Empties the buffer and attaches the span created last to the new text
     * again, which setting the text alone would drop.
     */
    method ResetText()
      modifies this`text, this`margin
      ensures text == [] && margin == old(margin).(attached := true)
    {
      text := [];
      margin := margin.(attached := true);
    }

    /** Removes every chip, without deletion notifications. */
    method Clear()
      requires Valid()
      modifies this, rootLayout
      ensures Valid()
      ensures keys == [] && chips == map[]
      ensures events == old(events) && layoutRequests == old(layoutRequests) + [true]
      ensures text == old(text) && focused == old(focused) && rootLayout.width == old(rootLayout.width)
      ensures LaidOut(old(margin))
    {
      keys := [];
      chips := map[];
      OnChipsChanged(true);
    }

    /** Unselects every chip except the one under except (every chip when None), then lays out. */
    method UnselectChipsExcept(except: Option<K>)
      requires Valid()
      modifies this`margin, this`layoutRequests, rootLayout, Footprint
      ensures Footprint == old(Footprint)
      ensures Valid()
      ensures keys == old(keys) && chips == old(chips) && events == old(events)
      ensures text == old(text) && focused == old(focused) && rootLayout.width == old(rootLayout.width)
      ensures forall k :: k in chips ==> chips[k].selected == (except == Some(k) && old(chips[k].selected))
      ensures SelectedKeys() == if except.Some? && except.value in old(SelectedKeys()) then {except.value} else {}
      ensures layoutRequests == old(layoutRequests) + [false]
      ensures LaidOut(old(margin))
    {
      var i := 0;
      while i < |keys|
        modifies Footprint
        invariant 0 <= i <= |keys|
        invariant forall k :: k in chips ==> chips[k].key == k && chips[k].Valid()
        invariant forall k :: k in chips ==>
          chips[k].selected == if k in keys[..i] && except != Some(k) then false else old(chips[k].selected)
      {
        var chip := chips[keys[i]];
        if except != Some(chip.key) {
          chip.SetSelected(false);
        }
        assert keys[..i + 1] == keys[..i] + [keys[i]];
        i := i + 1;
      }
      assert keys[..i] == keys;
      OnChipsChanged(false);
    }

    method UnselectAllChips()
      requires Valid()
      modifies this`margin, this`layoutRequests, rootLayout, Footprint
      ensures Footprint == old(Footprint)
      ensures Valid()
      ensures keys == old(keys) && chips == old(chips) && events == old(events)
      ensures text == old(text) && focused == old(focused) && rootLayout.width == old(rootLayout.width)
      ensures SelectedKeys() == {}
      ensures layoutRequests == old(layoutRequests) + [false]
      ensures LaidOut(old(margin))
    {
      UnselectChipsExcept(None);
    }

    /**
     * A tap on the chip under key (or a backspace reaching it): every other
     * chip is unselected first; then a selected chip is deleted and an
     * unselected one selected.
     */
    method OnChipInteraction(key: K)
      requires Valid() && key in chips
      modifies this`keys, this`chips, this`events, this`margin, this`layoutRequests, rootLayout, Footprint
      ensures Footprint == old(Footprint)
      ensures Valid()
      ensures Interacted(key)
      ensures forall k :: k in old(chips) && old(chips[k]).indelible ==> k in chips
      ensures rootLayout.width == old(rootLayout.width)
      ensures LaidOut(old(margin))
    {
      var chip := chips[key];
      UnselectChipsExcept(Some(key));
      assert chip.selected == old(chip.selected);
      Toggle(key);
      assert layoutRequests == old(layoutRequests) + [false] + [layoutRequests[|layoutRequests| - 1]];
    }

    /**
     * The second half of an interaction, once no other chip is selected: a
     * selected chip is deleted, an unselected one selected.
     */
    method Toggle(key: K)
      requires Valid() && key in chips
      requires SelectedKeys() == if chips[key].selected then {key} else {}
      modifies this`keys, this`chips, this`events, this`margin, this`layoutRequests, rootLayout, Footprint
      ensures Valid()
      ensures var chip := old(chips[key]);
        if old(chip.selected) then
          && keys == Keep(old(keys), old(chips).Keys - {key}) && chips == old(chips) - {key}
          && events == old(events) + [Deleted(chip.data)]
          && layoutRequests == old(layoutRequests) + [true]
          && SelectedKeys() == {}
        else
          && keys == old(keys) && chips == old(chips) && events == old(events)
          && layoutRequests == old(layoutRequests) + [false]
          && SelectedKeys() == if chip.indelible then {} else {key}
      ensures rootLayout.width == old(rootLayout.width)
      ensures LaidOut(old(margin))
    {
      if chips[key].selected {
        Remove(key);
      } else {
        Select(key);
      }
    }

    /**
     * The unselected branch of a chip interaction: selects the chip under key
     * when nothing is selected (an indelible chip stays unselected), then lays
     * out without moving the cursor.
     */
    method Select(key: K)
      requires Valid() && key in chips && SelectedKeys() == {}
      modifies chips[key], this`margin, this`layoutRequests, rootLayout
      ensures Valid()
      ensures SelectedKeys() == if chips[key].indelible then {} else {key}
      ensures layoutRequests == old(layoutRequests) + [false]
      ensures rootLayout.width == old(rootLayout.width)
      ensures LaidOut(old(margin))
    {
      var chip := chips[key];
      chip.SetSelected(true);
      assert forall k :: k in chips && k != key ==> chips[k] != chip;
      assert chip in Footprint;
      assert forall k :: k in chips && k != key ==> k !in old(SelectedKeys());
      assert forall k :: k in SelectedKeys() ==> k == key && !chip.indelible;
      assert !chip.indelible ==> key in SelectedKeys();
      OnChipsChanged(false);
    }

    /**
     * The selected branch of a chip interaction: removes the chip under key,
     * notifies its deletion, then lays out moving the cursor to the end.
     */
    method Remove(key: K)
      requires Valid() && key in chips
      modifies this`keys, this`chips, this`events, this`margin, this`layoutRequests, rootLayout
      ensures Valid()
      ensures keys == Keep(old(keys), old(chips).Keys - {key}) && chips == old(chips) - {key}
      ensures events == old(events) + [Deleted(old(chips)[key].data)]
      ensures SelectedKeys() == old(SelectedKeys()) - {key}
      ensures layoutRequests == old(layoutRequests) + [true]
      ensures rootLayout.width == old(rootLayout.width)
      ensures LaidOut(old(margin))
    {
      Forget(key);
      OnChipsChanged(true);
    }

    /** Takes the chip under key out of the collection, keeping the order of the others. */
    method Forget(key: K)
      requires Valid() && key in chips
      modifies this`keys, this`chips, this`events
      ensures Valid()
      ensures keys == Keep(old(keys), old(chips).Keys - {key}) && chips == old(chips) - {key}
      ensures events == old(events) + [Deleted(old(chips)[key].data)]
      ensures SelectedKeys() == old(SelectedKeys()) - {key}
    {
      var data := chips[key].data;
      CoherentRemove(keys, chips, Footprint, key);
      keys := Keep(keys, chips.Keys - {key});
      chips := chips - {key};
      Notify(Deleted(data));
    }

    /**
     * Keeps exactly the chips whose key is in pruneData, in their order,
     * without deletion notifications; lays out only when a chip was dropped.
     */
    method Prune(pruneData: set<K>)
      requires Valid()
      modifies this`keys, this`chips, this`margin, this`layoutRequests, rootLayout
      ensures Valid()
      ensures keys == Keep(old(keys), pruneData) && chips == Restricted(old(chips), pruneData)
      ensures SelectedKeys() == old(SelectedKeys()) * pruneData
      ensures (exists k :: k in old(keys) && k !in pruneData) ==>
        layoutRequests == old(layoutRequests) + [true] && LaidOut(old(margin))
      ensures (forall k :: k in old(keys) ==> k in pruneData) ==>
        layoutRequests == old(layoutRequests) && margin == old(margin) && rootLayout.lineLayouts == old(rootLayout.lineLayouts)
      ensures rootLayout.width == old(rootLayout.width)
    {
      var kept, changed := Survivors(pruneData);
      Restrict(kept, pruneData);
      if changed {
        OnChipsChanged(true);
      }
    }

    /**
     * The walk over the entries that decides what stays: the keys in
     * pruneData, in order, and whether any key is dropped.
     */
    method Survivors(pruneData: set<K>) returns (kept: seq<K>, changed: bool)
      ensures kept == Keep(keys, pruneData)
      ensures changed <==> exists k :: k in keys && k !in pruneData
    {
      kept, changed := [], false;
      var i := 0;
      while i < |keys|
        invariant 0 <= i <= |keys|
        invariant kept == Keep(keys[..i], pruneData)
        invariant changed <==> exists j :: 0 <= j < i && keys[j] !in pruneData
      {
        assert keys[..i + 1][..i] == keys[..i];
        if keys[i] in pruneData {
          kept := kept + [keys[i]];
        } else {
          changed := true;
        }
        i := i + 1;
      }
      assert keys[..i] == keys;
    }

    /** Replaces the collection by the entries whose key is in keep, kept lists in order. */
    method Restrict(kept: seq<K>, keep: set<K>)
      requires Valid() && kept == Keep(keys, keep)
      modifies this`keys, this`chips
      ensures Valid()
      ensures keys == kept && chips == Restricted(old(chips), keep)
      ensures SelectedKeys() == old(SelectedKeys()) * keep
    {
      CoherentKeep(keys, chips, Footprint, keep);
      keys := kept;
      chips := Restricted(chips, keep);
    }

    /** Walks the collection to its last chip and interacts with it; nothing happens without chips. */
    method SelectOrDeleteLastChip()
      requires Valid()
      modifies this, rootLayout, Footprint
      ensures Footprint == old(Footprint)
      ensures Valid()
      ensures old(keys) == [] ==> Unchanged()
      ensures old(keys) != [] ==> Interacted(old(keys)[|old(keys)| - 1]) && LaidOut(old(margin))
      ensures rootLayout.width == old(rootLayout.width)
    {
      if |keys| > 0 {
        var last: Option<K> := None;
        var i := 0;
        while i < |keys|
          invariant 0 <= i <= |keys|
          invariant if i == 0 then last == None else last == Some(keys[i - 1])
        {
          last := Some(keys[i]);
          i := i + 1;
        }
        if last.Some? {
          OnChipInteraction(last.value);
        }
      }
    }

    /** The platform reports a focus change of the text buffer; gaining focus unselects every chip. */
    method OnEditTextFocusChange(hasFocus: bool)
      requires Valid()
      modifies this, rootLayout, Footprint
      ensures Footprint == old(Footprint)
      ensures Valid()
      ensures focused == hasFocus
      ensures keys == old(keys) && chips == old(chips) && events == old(events) && text == old(text)
      ensures rootLayout.width == old(rootLayout.width)
      ensures hasFocus ==> SelectedKeys() == {} && layoutRequests == old(layoutRequests) + [false] && LaidOut(old(margin))
      ensures !hasFocus ==>
        && layoutRequests == old(layoutRequests) && margin == old(margin)
        && rootLayout.lineLayouts == old(rootLayout.lineLayouts) && SelectedKeys() == old(SelectedKeys())
    {
      focused := hasFocus;
      if hasFocus {
        UnselectAllChips();
      }
    }

    /** A tap on the container outside the chips focuses the text buffer and unselects every chip. */
    method OnContainerClick()
      requires Valid()
      modifies this, rootLayout, Footprint
      ensures Footprint == old(Footprint)
      ensures Valid()
      ensures focused && SelectedKeys() == {}
      ensures keys == old(keys) && chips == old(chips) && events == old(events) && text == old(text)
      ensures layoutRequests == old(layoutRequests) + (if old(focused) then [false] else [false, false])
      ensures rootLayout.width == old(rootLayout.width)
      ensures LaidOut(old(margin))
    {
      if !focused {
        OnEditTextFocusChange(true);
      }
      UnselectAllChips();
    }

    /** A tap on a chip takes the focus from the text buffer and interacts with the chip. */
    method OnChipClick(key: K)
      requires Valid() && key in chips
      modifies this, rootLayout, Footprint
      ensures Footprint == old(Footprint)
      ensures Valid()
      ensures !focused && text == old(text)
      ensures layoutRequests == old(layoutRequests) + [false, old(chips[key].selected)]
      ensures var chip := old(chips[key]);
        if old(chip.selected) then
          && keys == Keep(old(keys), old(chips).Keys - {key}) && chips == old(chips) - {key}
          && events == old(events) + [Deleted(chip.data)] && SelectedKeys() == {}
        else
          && keys == old(keys) && chips == old(chips) && events == old(events)
          && SelectedKeys() == if chip.indelible then {} else {key}
      ensures rootLayout.width == old(rootLayout.width)
      ensures LaidOut(old(margin))
    {
      focused := false;
      OnChipInteraction(key);
    }

    /**
     * Replaces the buffer's text with plain text, which carries no span: the
     * leading margin is detached until the next layout run attaches one.
     */
    method SetText(newText: JavaString)
      modifies this`text, this`margin
      ensures text == newText
      ensures margin == old(margin).(attached := false)
    {
      text := newText;
      margin := margin.(attached := false);
    }

    method GetText() returns (current: JavaString)
      ensures current == text
    {
      current := text;
    }

    /**
     * A key event from the IME: backspace pressed on an empty buffer is taken
     * by the field and steps the last chip; every other event is passed on.
     */
    method SendKeyEvent(event: KeyEvent) returns (forwarded: seq<Forwarded>)
      requires Valid()
      modifies this, rootLayout, Footprint
      ensures Footprint == old(Footprint)
      ensures Valid()
      ensures rootLayout.width == old(rootLayout.width)
      ensures forwarded == if |old(text)| == 0 && event == DEL_DOWN then [] else [ForwardKey(event)]
      ensures forwarded != [] || old(keys) == [] ==> Unchanged()
      ensures forwarded == [] && old(keys) != [] ==> Interacted(old(keys)[|old(keys)| - 1]) && LaidOut(old(margin))
    {
      if |text| == 0 {
        if event.action == ACTION_DOWN {
          if event.keyCode == KEYCODE_DEL {
            SelectOrDeleteLastChip();
            return [];
          }
        }
      }
      return [ForwardKey(event)];
    }

    /**
     * The IME's deletion request: deleting one character before the cursor
     * of an empty buffer is turned into a backspace press and release; the
     * press steps the last chip, the release is passed on.
     */
    method DeleteSurroundingText(beforeLength: int, afterLength: int) returns (forwarded: seq<Forwarded>)
      requires Valid()
      modifies this, rootLayout, Footprint
      ensures Footprint == old(Footprint)
      ensures Valid()
      ensures rootLayout.width == old(rootLayout.width)
      ensures var backspace := |old(text)| == 0 && beforeLength == 1 && afterLength == 0;
        && forwarded == (if backspace then [ForwardKey(DEL_UP)] else [ForwardDelete(beforeLength, afterLength)])
        && (!backspace || old(keys) == [] ==> Unchanged())
        && (backspace && old(keys) != [] ==> Interacted(old(keys)[|old(keys)| - 1]) && LaidOut(old(margin)))
    {
      if |text| == 0 && beforeLength == 1 && afterLength == 0 {
        var down := SendKeyEvent(DEL_DOWN);
        label pressed:
        var up := SendKeyEvent(DEL_UP);
        assert Unchanged@pressed();
        return down + up;
      }
      return [ForwardDelete(beforeLength, afterLength)];
    }
  }

  /**
   * On an empty buffer whose last chip is deletable and nothing selected, the
   * first backspace only selects that chip; the second deletes it and nothing else.
   */
  method TwoStepBackspace<K(==), V(==)>(view: ChipsView<K, V>)
    requires view.Valid() && view.text == [] && view.keys != [] && view.SelectedKeys() == {}
    requires !view.chips[view.keys[|view.keys| - 1]].indelible
    modifies view, view.rootLayout, view.Footprint
    ensures view.Valid()
    ensures var last := old(view.keys)[|old(view.keys)| - 1];
      && view.keys == old(view.keys)[..|old(view.keys)| - 1]
      && view.events == old(view.events) + [Deleted(old(view.chips)[last].data)]
      && view.SelectedKeys() == {}
  {
    var last := view.keys[|view.keys| - 1];
    assert last !in view.SelectedKeys();
    assert !view.chips[last].selected;
    var first := view.SendKeyEvent(DEL_DOWN);
    assert view.keys == old(view.keys) && view.SelectedKeys() == {last};
    var second := view.SendKeyEvent(DEL_DOWN);
    KeepDropsLast(old(view.keys), old(view.chips).Keys);
  }

  /** Backspace never removes an indelible last chip, however often it is pressed. */
  method IndelibleLastChipStays<K(==), V(==)>(view: ChipsView<K, V>)
    requires view.Valid() && view.text == [] && view.keys != []
    requires view.chips[view.keys[|view.keys| - 1]].indelible
    modifies view, view.rootLayout, view.Footprint
    ensures view.Valid()
    ensures view.keys == old(view.keys) && view.events == old(view.events) && view.SelectedKeys() == {}
  {
    var first := view.SendKeyEvent(DEL_DOWN);
    var second := view.SendKeyEvent(DEL_DOWN);
  }
}
