/** The medical-examination table: one record per subject, with the raw
    columns of the input file and the derived `overweight` column. */
module Records {

  /** One examination row. `height` is in centimetres, `weight` in kilograms
      (the input file stores weight as a decimal number). `cholesterol` and
      `gluc` hold the raw 1-3 level before feature derivation and the 0/1
      indicator after it; `overweight` is meaningful only after derivation. */
  datatype Record = Record(
    id: int,
    age: int,
    gender: int,
    height: int,
    weight: real,
    apHi: int,
    apLo: int,
    cholesterol: int,
    gluc: int,
    smoke: int,
    alco: int,
    active: int,
    cardio: int,
    overweight: int)

  /** The six indicator columns of the categorical plot, in the order the
      long-format reshape emits them. */
  const IndicatorColumns: seq<string> :=
    ["cholesterol", "gluc", "smoke", "alco", "active", "overweight"]

  /** Every column of the derived table; the correlation matrix of the heat
      map is square over these. */
  const TableColumns: seq<string> :=
    ["id", "age", "gender", "height", "weight", "ap_hi", "ap_lo",
     "cholesterol", "gluc", "smoke", "alco", "active", "cardio", "overweight"]

  /** The value of indicator column `name` in row `r`. */
  function Column(r: Record, name: string): int
    requires name in IndicatorColumns
  {
    if name == "cholesterol" then r.cholesterol
    else if name == "gluc" then r.gluc
    else if name == "smoke" then r.smoke
    else if name == "alco" then r.alco
    else if name == "active" then r.active
    else r.overweight
  }

  /** Number of rows of `t` whose cardiovascular-disease label is `c`. */
  function RowsWithCardio(t: seq<Record>, c: int): (n: nat)
    ensures n <= |t|
  {
    if t == [] then 0
    else (if t[0].cardio == c then 1 else 0) + RowsWithCardio(t[1..], c)
  }
}
