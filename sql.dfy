/** The pieces of SQL the repositories build: arguments bound to numbered
    placeholders ($1, $2, ...) and terms of the form `column op $i`. */
module Sql {
  import opened Common
  import opened Decimal

  /** A float32 kept as its bits; the model never compares floats. */
  datatype Float32 = Float32(bits: bv32)

  /** A value passed to the driver for a placeholder. */
  datatype SqlArg = Text(s: string) | Int(i: int) | Real(f: Float32) | Bool(b: bool)

  /** `$i`, as fmt's `$%d` writes it. */
  function Placeholder(i: nat): string
  {
    "$" + FormatInt(i)
  }

  /** A placeholder names a single index. */
  lemma PlaceholderInjective(i: nat, j: nat)
    ensures Placeholder(i) == Placeholder(j) ==> i == j
  {
    assert Placeholder(i)[1..] == FormatInt(i) && Placeholder(j)[1..] == FormatInt(j);
    FormatIntInjective(i, j);
  }

  /** `column op $index`, as `"%s %s $%d"` writes it. */
  datatype Term = Term(column: string, op: string, index: nat)

  function RenderTerm(t: Term): string
  {
    t.column + " " + t.op + " " + Placeholder(t.index)
  }

  function RenderTerms(ts: seq<Term>): (r: seq<string>)
    ensures |r| == |ts| && forall i :: 0 <= i < |ts| ==> r[i] == RenderTerm(ts[i])
  {
    if |ts| == 0 then [] else [RenderTerm(ts[0])] + RenderTerms(ts[1..])
  }

  /** Terms for (column, op) pairs numbered from `from` on. */
  function Number(cs: seq<(string, string)>, from: nat): (r: seq<Term>)
    ensures |r| == |cs| && forall i :: 0 <= i < |cs| ==> r[i] == Term(cs[i].0, cs[i].1, from + i)
  {
    if |cs| == 0 then [] else [Term(cs[0].0, cs[0].1, from)] + Number(cs[1..], from + 1)
  }

  /** One more term at the end takes the next index. */
  lemma NumberSnoc(cs: seq<(string, string)>, c: (string, string), from: nat)
    ensures Number(cs + [c], from) == Number(cs, from) + [Term(c.0, c.1, from + |cs|)]
  {
    var l, r := Number(cs + [c], from), Number(cs, from) + [Term(c.0, c.1, from + |cs|)];
    assert |l| == |r|;
    forall i | 0 <= i < |l| ensures l[i] == r[i] {
      if i < |cs| {
        assert (cs + [c])[i] == cs[i];
      }
    }
  }

  /** The addProp closure of the repositories: one more `name sign $argId`
      term, its value after the others, and argId moved on. What it keeps
      (the numbering $1, $2, ... of the terms, each bound to its value) is
      stated by the repositories' step lemmas. */
  method AddProp(names: seq<Term>, values: seq<SqlArg>, argId: nat, name: string, sign: string, value: SqlArg)
    returns (names': seq<Term>, values': seq<SqlArg>, argId': nat)
    ensures names' == names + [Term(name, sign, argId)]
    ensures values' == values + [value]
    ensures argId' == argId + 1
  {
    names' := names + [Term(name, sign, argId)];
    values' := values + [value];
    argId' := argId + 1;
  }

  /** A placeholder the driver can bind: one of $1 .. $n for n arguments. */
  predicate Bound(i: nat, args: seq<SqlArg>)
  {
    1 <= i <= |args|
  }
}
