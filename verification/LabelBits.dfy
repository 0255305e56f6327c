/** How wide the fields are that the records of stb_connected_components.h are kept in. */
module LabelBits {
  import opened GridModel
  import opened GridState
  import opened ClumpForest

  /** n can be the label of a clump in a grid of countX x countY clusters with s x s squares each. */
  ghost predicate IsLabel(s: int, countX: int, countY: int, n: GlobalClumpId) {
    0 <= n.index < MaxClumps(s) && InGrid(countX, countY, Home(n))
  }

  /** The three bit fields hold every clump index and every cluster position. */
  predicate FieldsFit(s: int, countX: int, countY: int) {
    MaxClumps(s) <= 4096 && countX <= 1024 && countY <= 1024
  }

  /** Labels that fit are told apart by their bits. */
  lemma LabelFits(s: int, countX: int, countY: int, n: GlobalClumpId)
    requires IsLabel(s, countX, countY, n) && FieldsFit(s, countX, countY)
    ensures FitsFields(n)
  {}

  lemma TooManyClumps(s: int, countX: int, countY: int)
    requires MaxClumps(s) > 4096 && countX >= 1 && countY >= 1
    ensures var n, n' := ClumpId(0, 0, 0), ClumpId(4096, 0, 0);
            IsLabel(s, countX, countY, n) && IsLabel(s, countX, countY, n') && Packed(n) == Packed(n')
  {
    hide MaxClumps;
  }

  lemma TooManyClusters(s: int, countX: int, countY: int)
    requires s >= 2 && countX >= 1 && countY >= 1 && (countX > 1024 || countY > 1024)
    ensures var n, n' := ClumpId(0, 0, 0), if countX > 1024 then ClumpId(0, 1024, 0) else ClumpId(0, 0, 1024);
            IsLabel(s, countX, countY, n) && IsLabel(s, countX, countY, n') && Packed(n) == Packed(n')
  {
    MulMono(2, s, s);
    assert MaxClumps(s) > 0;
    hide MaxClumps;
  }

  /** Different labels have different bits if and only if the fields are wide enough. */
  lemma PackedApartIffFieldsFit(s: int, countX: int, countY: int)
    requires s >= 2 && countX >= 1 && countY >= 1
    ensures (forall n, n' ::
               IsLabel(s, countX, countY, n) && IsLabel(s, countX, countY, n') && Packed(n) == Packed(n') ==> n == n')
            <==> FieldsFit(s, countX, countY)
    ensures FieldsFit(s, countX, countY) <==> s * s / 2 <= 4096 && countX <= 1024 && countY <= 1024
  {
    if FieldsFit(s, countX, countY) {
      hide Packed, FieldsFit, IsLabel, FitsFields;
      forall n, n' | IsLabel(s, countX, countY, n) && IsLabel(s, countX, countY, n') && Packed(n) == Packed(n')
        ensures n == n'
      {
        LabelFits(s, countX, countY, n);
        LabelFits(s, countX, countY, n');
        PackedSame(n, n');
      }
    } else if MaxClumps(s) > 4096 {
      hide Packed, IsLabel, MaxClumps;
      TooManyClumps(s, countX, countY);
    } else {
      hide Packed, IsLabel, MaxClumps;
      TooManyClusters(s, countX, countY);
    }
  }

  /** No label has the bits of the null id: no square number is twice 4096. */
  lemma PackedIsNotNull(s: int, countX: int, countY: int, n: GlobalClumpId)
    requires s >= 2 && IsLabel(s, countX, countY, n) && FieldsFit(s, countX, countY)
    ensures Packed(n) < NULL_UNIQUE_ID
  {
    if s <= 90 {
      MulMono(s, 90, s);
    } else {
      MulMono(91, s, s);
      assert false;
    }
  }

  /**
   The compile-time sizes for which all bytes and bit fields are wide enough: up
   to 64 squares along a cluster, so that a pool of adjacency slots has at most 256,
   and up to 1024 clusters along the map.
   */
  predicate SizesFit(s: int, countX: int, countY: int) {
    s <= 64 && countX <= 1024 && countY <= 1024
  }

  lemma SizesFitFields(s: int, countX: int, countY: int)
    requires 0 <= s && SizesFit(s, countX, countY)
    ensures FieldsFit(s, countX, countY) && MaxClumps(s) <= 2048
    ensures s <= 64 && countX <= 1024 && countY <= 1024
  {
    MulMono(s, 64, s);
    MulMono(s, 64, 64);
  }
}
