/** The hotbar selection: which block a right click places.

    The game keeps one integer, the selected block id, which starts at dirt.
    The keys "1", "2" and "3" select dirt, stone and the empty hand; every
    other key leaves the selection alone. */
module Hotbar {

  datatype Option<T> = None | Some(value: T)

  /** Block ids. 0 is the empty cell, and, as a selection, the bare hand. */
  const Hand: int := 0
  const Dirt: int := 1
  const Stone: int := 2

  /** The selection the game starts with. */
  const InitialSelection: int := Dirt

  /** The ids the hotbar offers. */
  predicate IsHotbarBlock(b: int)
  {
    b == Hand || b == Dirt || b == Stone
  }

  /** The keys that change the selection. */
  predicate IsSelectionKey(key: string)
  {
    key == "1" || key == "2" || key == "3"
  }

  /** The block a selection key stands for. */
  function KeyBlock(key: string): (b: int)
    requires IsSelectionKey(key)
    ensures IsHotbarBlock(b)
  {
    if key == "1" then Dirt else if key == "2" then Stone else Hand
  }

  /** The selection after one key press. */
  function AfterKey(selected: int, key: string): (r: int)
    ensures key == "1" ==> r == Dirt
    ensures key == "2" ==> r == Stone
    ensures key == "3" ==> r == Hand
    ensures !IsSelectionKey(key) ==> r == selected
    ensures IsHotbarBlock(selected) ==> IsHotbarBlock(r)
  {
    if IsSelectionKey(key) then KeyBlock(key) else selected
  }

  /** The selection after a session's key presses, oldest first. */
  function SelectionAfter(keys: seq<string>): int
  {
    if keys == [] then InitialSelection
    else AfterKey(SelectionAfter(keys[..|keys| - 1]), keys[|keys| - 1])
  }

  /** The index of the last selection key in `keys`, if there is one. */
  function LastSelectionKey(keys: seq<string>): (r: Option<nat>)
    ensures r.Some? ==> r.value < |keys| && IsSelectionKey(keys[r.value])
    ensures r.Some? ==> forall j :: r.value < j < |keys| ==> !IsSelectionKey(keys[j])
    ensures r.None? ==> forall j :: 0 <= j < |keys| ==> !IsSelectionKey(keys[j])
  {
    if keys == [] then None
    else if IsSelectionKey(keys[|keys| - 1]) then Some(|keys| - 1)
    else LastSelectionKey(keys[..|keys| - 1])
  }

  /** Whatever keys were pressed, the selection is one of the hotbar's ids. */
  lemma {:induction false} SelectionStaysInHotbar(keys: seq<string>)
    ensures IsHotbarBlock(SelectionAfter(keys))
  {
    if keys != [] {
      SelectionStaysInHotbar(keys[..|keys| - 1]);
    }
  }

  /** The selection is decided by the last selection key pressed alone, and
      is the initial one when no selection key was pressed. */
  lemma {:induction false} LastSelectionKeyWins(keys: seq<string>)
    ensures SelectionAfter(keys) ==
      match LastSelectionKey(keys)
      case None => InitialSelection
      case Some(i) => KeyBlock(keys[i])
  {
    if keys != [] {
      var init := keys[..|keys| - 1];
      LastSelectionKeyWins(init);
      if !IsSelectionKey(keys[|keys| - 1]) {
        match LastSelectionKey(init)
        case None =>
        case Some(i) => assert keys[i] == init[i];
      }
    }
  }
}
