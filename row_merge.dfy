/** The row merge: all fields of one row followed by the fields of another
    with one position left out. It builds the output header and every
    output data row. */
module RowMerge {
  import opened Types

  /** `to` without its field at position `exclude`, the others kept in order;
      `to` itself when it has no field at `exclude`. Defined field by field,
      as the merge loop walks `to`. */
  function Without(to: Row, exclude: nat): Row
  {
    if to == [] then []
    else Without(to[..|to| - 1], exclude) + (if |to| - 1 == exclude then [] else [to[|to| - 1]])
  }

  /** The merged row: every field of `from`, then `to` without position `exclude`. */
  function Merge(from: Row, to: Row, exclude: nat): Row
  {
    from + Without(to, exclude)
  }

  /** Without is the slice of `to` before `exclude` joined to the slice after it. */
  lemma {:induction false} WithoutIsSliceRemoval(to: Row, exclude: nat)
    ensures Without(to, exclude) == if exclude < |to| then to[..exclude] + to[exclude + 1..] else to
  {
    if to != [] {
      var init := to[..|to| - 1];
      WithoutIsSliceRemoval(init, exclude);
      if exclude < |init| {
        assert to[..exclude] == init[..exclude];
        assert init[exclude + 1..] + [to[|to| - 1]] == to[exclude + 1..];
      } else if exclude == |init| {
        assert to[..exclude] == init;
        assert to[exclude + 1..] == [];
      } else {
        assert init + [to[|to| - 1]] == to;
      }
    }
  }

  /** The merged row starts with `from` unchanged; its remaining fields are
      those of `to` in order, skipping position `exclude`; it loses one
      field exactly when `exclude` is a position of `to`. */
  lemma MergeFields(from: Row, to: Row, exclude: nat)
    ensures Merge(from, to, exclude)[..|from|] == from
    ensures |Merge(from, to, exclude)| == if exclude < |to| then |from| + |to| - 1 else |from| + |to|
    ensures forall i :: |from| <= i < |Merge(from, to, exclude)| ==>
              Merge(from, to, exclude)[i] == to[if i - |from| < exclude then i - |from| else i - |from| + 1]
  {
    WithoutIsSliceRemoval(to, exclude);
  }

  /** Builds the merged row by pushing the fields one at a time: first every
      field of `from`, then every field of `to` whose position is not `exclude`. */
  method JoinRows(from: Row, to: Row, exclude: nat) returns (row: Row)
    ensures row == Merge(from, to, exclude)
  {
    row := [];
    for i := 0 to |from|
      invariant row == from[..i]
    {
      row := row + [from[i]];
    }
    assert from[..|from|] == from;
    for index := 0 to |to|
      invariant row == from + Without(to[..index], exclude)
    {
      assert to[..index + 1][..index] == to[..index];
      if index != exclude {
        row := row + [to[index]];
      }
    }
    assert to[..|to|] == to;
  }
}
