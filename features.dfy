/** Feature derivation: the top-level statements that add the `overweight`
    column to the shared table and rewrite `cholesterol` and `gluc` into 0/1
    indicators, column by column and in place. */
module Features {
  import opened Records

  /** Body-mass index, weight / (height in metres)^2, computed exactly. */
  function Bmi(height: int, weight: real): real
    requires height != 0
  {
    var metres := height as real / 100.0;
    weight / (metres * metres)
  }

  /** The overweight flag: 1 when the BMI is strictly above 25, else 0.
      A zero height makes the floating-point division give +inf, -inf or
      NaN according to the sign of the weight; only +inf compares above 25. */
  function Overweight(height: int, weight: real): (flag: int)
    ensures flag == 0 || flag == 1
  {
    if height == 0 then (if weight > 0.0 then 1 else 0)
    else if Bmi(height, weight) > 25.0 then 1 else 0
  }

  /** The flag agrees with the division-free comparison
      weight * 10000 > 25 * height^2 for every height, zero included. */
  lemma OverweightIffCrossMultiplied(height: int, weight: real)
    ensures Overweight(height, weight) == 1
            <==> weight * 10000.0 > 25.0 * (height * height) as real
  {
    if height != 0 {
      var metres := height as real / 100.0;
      var sq := metres * metres;
      assert sq * 10000.0 == (height * height) as real;
      assert sq > 0.0;
      assert Bmi(height, weight) == weight / sq;
      QuotientAbove(weight, sq, 25.0);
      assert 25.0 * (height * height) as real == (25.0 * sq) * 10000.0;
      assert weight > 25.0 * sq <==> weight * 10000.0 > (25.0 * sq) * 10000.0;
    }
  }

  /** For a positive divisor, w / d > k exactly when w > k * d. */
  lemma QuotientAbove(w: real, d: real, k: real)
    requires d > 0.0
    ensures w / d > k <==> w > k * d
  {
  }

  /** Three sample rows: 170 cm / 70 kg (BMI 24.2) is not
      overweight, 160 cm / 70 kg (BMI 27.3) is, and a BMI of exactly 25
      (200 cm / 100 kg) is not. */
  lemma OverweightExamples()
    ensures Overweight(170, 70.0) == 0
    ensures Overweight(160, 70.0) == 1
    ensures Overweight(200, 100.0) == 0
  {
    OverweightIffCrossMultiplied(170, 70.0);
    OverweightIffCrossMultiplied(160, 70.0);
    OverweightIffCrossMultiplied(200, 100.0);
  }

  /** The cholesterol/glucose normalisation: level 1 ("normal") becomes 0 and
      every other value becomes 1. */
  function NormalizeLevel(level: int): (indicator: int)
    ensures indicator == 0 || indicator == 1
    ensures indicator == 0 <==> level == 1
  {
    if level == 1 then 0 else 1
  }

  /** The normalisation is not idempotent: an indicator 0 maps to 1 again,
      so deriving the features a second time changes the table. */
  lemma NormalizeLevelNotIdempotent()
    ensures NormalizeLevel(1) == 0 && NormalizeLevel(2) == 1 && NormalizeLevel(3) == 1
    ensures NormalizeLevel(NormalizeLevel(1)) != NormalizeLevel(1)
  {
  }

  /** The two level columns the normalisation rewrites. */
  datatype LevelColumn = CholesterolColumn | GlucoseColumn

  /** Row `r` with the overweight column (re)computed from its height and weight. */
  function WithOverweight(r: Record): Record
  {
    r.(overweight := Overweight(r.height, r.weight))
  }

  /** Row `r` with level column `col` normalised. */
  function WithLevelNormalized(r: Record, col: LevelColumn): Record
  {
    match col
    case CholesterolColumn => r.(cholesterol := NormalizeLevel(r.cholesterol))
    case GlucoseColumn => r.(gluc := NormalizeLevel(r.gluc))
  }

  /** The fields feature derivation never touches are the same in `a` and `b`. */
  predicate SameUnderivedFields(a: Record, b: Record)
  {
    a.id == b.id && a.age == b.age && a.gender == b.gender &&
    a.height == b.height && a.weight == b.weight &&
    a.apHi == b.apHi && a.apLo == b.apLo &&
    a.smoke == b.smoke && a.alco == b.alco && a.active == b.active &&
    a.cardio == b.cardio
  }

  /** `d` is the derived form of the raw row `raw`. */
  predicate DerivedFrom(raw: Record, d: Record)
  {
    SameUnderivedFields(raw, d) &&
    d.overweight == Overweight(raw.height, raw.weight) &&
    d.cholesterol == NormalizeLevel(raw.cholesterol) &&
    d.gluc == NormalizeLevel(raw.gluc)
  }

  /** One row after all three column statements. */
  function DeriveRow(raw: Record): (d: Record)
    ensures DerivedFrom(raw, d)
    ensures d.overweight in {0, 1} && d.cholesterol in {0, 1} && d.gluc in {0, 1}
  {
    WithLevelNormalized(WithLevelNormalized(WithOverweight(raw), CholesterolColumn), GlucoseColumn)
  }

  /** The whole table after feature derivation: same rows, same order. */
  function DeriveTable(t: seq<Record>): (d: seq<Record>)
    ensures |d| == |t|
    ensures forall i :: 0 <= i < |t| ==> DerivedFrom(t[i], d[i])
  {
    seq(|t|, i requires 0 <= i < |t| => DeriveRow(t[i]))
  }

  /** Deriving twice is not deriving once whenever some row has cholesterol
      level 1: the features must be computed exactly once. */
  lemma DeriveTwiceDiffers(t: seq<Record>, i: nat)
    requires i < |t| && t[i].cholesterol == 1
    ensures DeriveTable(DeriveTable(t)) != DeriveTable(t)
  {
    assert DeriveTable(t)[i].cholesterol == 0;
    assert DeriveTable(DeriveTable(t))[i].cholesterol == 1;
  }

  /** Line 12: assigns the `overweight` column of every row. */
  method AddOverweightColumn(df: array<Record>)
    modifies df
    ensures forall i :: 0 <= i < df.Length ==> df[i] == WithOverweight(old(df[i]))
  {
    var i := 0;
    while i < df.Length
      invariant 0 <= i <= df.Length
      invariant forall k :: 0 <= k < i ==> df[k] == WithOverweight(old(df[k]))
      invariant forall k :: i <= k < df.Length ==> df[k] == old(df[k])
    {
      df[i] := WithOverweight(df[i]);
      i := i + 1;
    }
  }

  /** Lines 17-18: overwrites one level column of every row with its 0/1 indicator. */
  method NormalizeLevelColumn(df: array<Record>, col: LevelColumn)
    modifies df
    ensures forall i :: 0 <= i < df.Length ==> df[i] == WithLevelNormalized(old(df[i]), col)
  {
    var i := 0;
    while i < df.Length
      invariant 0 <= i <= df.Length
      invariant forall k :: 0 <= k < i ==> df[k] == WithLevelNormalized(old(df[k]), col)
      invariant forall k :: i <= k < df.Length ==> df[k] == old(df[k])
    {
      df[i] := WithLevelNormalized(df[i], col);
      i := i + 1;
    }
  }

  /** Lines 12-18 in order: the shared table keeps its rows and their order,
      and each row becomes its derived form. */
  method DeriveFeatures(df: array<Record>)
    modifies df
    ensures df[..] == DeriveTable(old(df[..]))
    ensures forall i :: 0 <= i < df.Length ==> DerivedFrom(old(df[i]), df[i])
  {
    AddOverweightColumn(df);
    NormalizeLevelColumn(df, CholesterolColumn);
    NormalizeLevelColumn(df, GlucoseColumn);
    assert forall i :: 0 <= i < df.Length ==> df[i] == DeriveRow(old(df[i]));
  }
}
