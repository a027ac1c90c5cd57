/**
 * The undo log of mindmap.js (`saveState`, `undo`, `redo`): a list of
 * snapshots of the node list, at most `Capacity` long, and a cursor on the
 * snapshot that is current. The editor class keeps the two as fields; these
 * functions say what its methods do to them.
 */
module History {
  /** The log keeps at most this many snapshots; the oldest goes first. */
  const Capacity: nat := 50

  datatype Log<T> = Log(entries: seq<T>, index: int)

  /** What `saveState`, `undo` and `redo` keep: an empty log with cursor -1, or a cursor on an entry. */
  predicate Valid<T>(h: Log<T>) {
    |h.entries| <= Capacity && -1 <= h.index < |h.entries| && (|h.entries| > 0 ==> 0 <= h.index)
  }

  /** The log before the first snapshot. */
  function Empty<T>(): (r: Log<T>)
    ensures Valid(r) && r.entries == [] && r.index == -1
  {
    Log([], -1)
  }

  /** The snapshot under the cursor. */
  function Current<T>(h: Log<T>): T
    requires Valid(h) && h.index >= 0
  {
    h.entries[h.index]
  }

  predicate CanUndo<T>(h: Log<T>) { h.index > 0 }

  predicate CanRedo<T>(h: Log<T>) { h.index < |h.entries| - 1 }

  /**
   * `saveState`: drop everything after the cursor, append the snapshot,
   * move the cursor onto it, and evict the oldest entry once the log is
   * over capacity.
   */
  function Checkpoint<T>(h: Log<T>, s: T): (r: Log<T>)
    requires Valid(h)
    ensures Valid(r) && 0 <= r.index == |r.entries| - 1 && Current(r) == s
    ensures r.entries[..r.index] == if h.index + 2 <= Capacity then h.entries[..h.index + 1]
                                    else h.entries[1..h.index + 1]
  {
    var kept := h.entries[..h.index + 1] + [s];
    if |kept| > Capacity then Log(kept[1..], h.index) else Log(kept, h.index + 1)
  }

  /** The first checkpoint of an empty log holds just that snapshot, under the cursor. */
  lemma FirstCheckpoint<T>(s: T)
    ensures Checkpoint(Empty(), s) == Log([s], 0)
  {
    assert Empty<T>().entries[..0] + [s] == [s];
  }

  /** A checkpoint keeps only snapshots that were logged before, and the new one. */
  lemma CheckpointKeeps<T>(h: Log<T>, s: T)
    requires Valid(h)
    ensures forall e | e in Checkpoint(h, s).entries :: e in h.entries || e == s
  {
    var kept := h.entries[..h.index + 1] + [s];
    assert forall e | e in kept :: e in h.entries || e == s;
    assert forall e | e in kept[1..] :: e in kept;
  }

  /** `undo`: step the cursor back when there is an older snapshot. */
  function Undo<T>(h: Log<T>): (r: Log<T>)
    requires Valid(h)
    ensures Valid(r) && r.entries == h.entries
    ensures CanUndo(h) ==> r.index == h.index - 1
    ensures !CanUndo(h) ==> r == h
  {
    if h.index > 0 then h.(index := h.index - 1) else h
  }

  /** `redo`: step the cursor forward when there is a newer snapshot. */
  function Redo<T>(h: Log<T>): (r: Log<T>)
    requires Valid(h)
    ensures Valid(r) && r.entries == h.entries
    ensures CanRedo(h) ==> r.index == h.index + 1
    ensures !CanRedo(h) ==> r == h
  {
    if h.index < |h.entries| - 1 then h.(index := h.index + 1) else h
  }

  function UndoN<T>(h: Log<T>, k: nat): (r: Log<T>)
    requires Valid(h)
    decreases k
    ensures Valid(r) && r.entries == h.entries
  {
    if k == 0 then h else UndoN(Undo(h), k - 1)
  }

  function RedoN<T>(h: Log<T>, k: nat): (r: Log<T>)
    requires Valid(h)
    decreases k
    ensures Valid(r) && r.entries == h.entries
  {
    if k == 0 then h else RedoN(Redo(h), k - 1)
  }

  /** Undo right after a checkpoint brings back the snapshot that was current before it. */
  lemma UndoAfterCheckpoint<T>(h: Log<T>, s: T)
    requires Valid(h) && h.index >= 0
    ensures CanUndo(Checkpoint(h, s))
    ensures Current(Undo(Checkpoint(h, s))) == Current(h)
  {
    var r := Checkpoint(h, s);
    assert r.entries[..r.index][r.index - 1] == r.entries[r.index - 1];
  }

  /** A checkpoint discards every redo: there is nothing to redo right after it. */
  lemma RedoAfterCheckpointIsNoOp<T>(h: Log<T>, s: T)
    requires Valid(h)
    ensures !CanRedo(Checkpoint(h, s))
    ensures Redo(Checkpoint(h, s)) == Checkpoint(h, s)
  {
  }

  /** Redo undoes an undo that happened. */
  lemma RedoUndo<T>(h: Log<T>)
    requires Valid(h) && CanUndo(h)
    ensures Redo(Undo(h)) == h
  {
  }

  /** Undo undoes a redo that happened. */
  lemma UndoRedo<T>(h: Log<T>)
    requires Valid(h) && CanRedo(h)
    ensures Undo(Redo(h)) == h
  {
  }

  /** `k` undos never go past the first snapshot: the cursor moves back by `k`, down to 0. */
  lemma {:induction false} UndoNIndex<T>(h: Log<T>, k: nat)
    requires Valid(h) && h.index >= 0
    ensures UndoN(h, k).index == if k <= h.index then h.index - k else 0
    decreases k
  {
    if k > 0 {
      UndoNIndex(Undo(h), k - 1);
    }
  }

  /** `k` undos followed by `k` redos come back to where they started, when all `k` undos happen. */
  lemma {:induction false} UndoRedoRoundTrip<T>(h: Log<T>, k: nat)
    requires Valid(h) && k <= h.index
    ensures RedoN(UndoN(h, k), k) == h
    decreases k
  {
    if k > 0 {
      var u := Undo(h);
      UndoRedoRoundTrip(u, k - 1);
      // RedoN(UndoN(u, k-1), k-1) == u; one more redo after that returns to h
      RedoNLast(UndoN(u, k - 1), k - 1);
      UndoNIndex(u, k - 1);
    }
  }

  /** Redoing `k + 1` times is redoing `k` times and then once more. */
  lemma {:induction false} RedoNLast<T>(h: Log<T>, k: nat)
    requires Valid(h)
    ensures RedoN(h, k + 1) == Redo(RedoN(h, k))
    decreases k
  {
    if k > 0 {
      RedoNLast(Redo(h), k - 1);
    }
  }
}
