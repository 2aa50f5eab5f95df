/** Header value extraction for the authentication middlewares: the values of one
    header, filtered by a case-insensitive prefix that is then stripped. */
module Middleware {
  import opened Base

  /** ASCII upper case to lower case; every other character is kept. */
  function Lower(c: char): (l: char)
    ensures 'A' <= c <= 'Z' ==> l as int == c as int + 32
    ensures !('A' <= c <= 'Z') ==> l == c
  {
    if 'A' <= c <= 'Z' then (c as int + 32) as char else c
  }

  /** `strings.EqualFold`, restricted to ASCII case folding. */
  predicate EqualFold(a: string, b: string) {
    |a| == |b| && forall i :: 0 <= i < |a| ==> Lower(a[i]) == Lower(b[i])
  }

  /** Whether one header value is kept under `prefix`: always for an empty prefix,
      otherwise when it is strictly longer and starts with the prefix up to case. */
  predicate Keeps(value: string, prefix: string) {
    |prefix| == 0 || (|value| > |prefix| && EqualFold(value[..|prefix|], prefix))
  }

  /** The kept values with the prefix stripped, in their original order. */
  function Extract(values: seq<string>, prefix: string): (r: seq<string>)
  {
    if values == [] then []
    else
      var head := if Keeps(values[0], prefix) then [values[0][|prefix|..]] else [];
      head + Extract(values[1..], prefix)
  }

  const ErrHeaderNotFound := Error("header not found")
  const ErrValueNotFound := Error("value not found")

  /** The extractor `valuesFromHeader(header, prefix)` returns, applied to the values
      the request carries for that header. */
  function ValuesFromHeader(values: seq<string>, prefix: string): (r: Result<seq<string>>)
    ensures values == [] ==> r == Err(ErrHeaderNotFound)
    ensures r.Ok? ==> |r.value| > 0
    ensures !r.Fault?
  {
    if |values| == 0 then Err(ErrHeaderNotFound)
    else
      var result := Extract(values, prefix);
      if |result| == 0 then Err(ErrValueNotFound) else Ok(result)
  }

  /** Extraction distributes over concatenation, so the output keeps input order. */
  lemma {:induction false} ExtractAppend(a: seq<string>, b: seq<string>, prefix: string)
    ensures Extract(a + b, prefix) == Extract(a, prefix) + Extract(b, prefix)
    decreases |a|
  {
    if a != [] {
      assert (a + b)[0] == a[0] && (a + b)[1..] == a[1..] + b;
      ExtractAppend(a[1..], b, prefix);
      var head := if Keeps(a[0], prefix) then [a[0][|prefix|..]] else [];
      assert Extract(a + b, prefix) == head + (Extract(a[1..], prefix) + Extract(b, prefix));
      assert head + (Extract(a[1..], prefix) + Extract(b, prefix))
        == (head + Extract(a[1..], prefix)) + Extract(b, prefix);
    } else {
      assert a + b == b;
    }
  }

  /** On one value the result is its remainder exactly when it is kept. */
  lemma ExtractOne(value: string, prefix: string)
    ensures Extract([value], prefix) == if Keeps(value, prefix) then [value[|prefix|..]] else []
  {
    assert [value][1..] == [];
  }

  /** Membership: an output element is the stripped form of a kept input value, and
      every kept input value contributes one. */
  lemma {:induction false} ExtractMembers(values: seq<string>, prefix: string)
    ensures forall s :: s in Extract(values, prefix) <==>
      exists v :: v in values && Keeps(v, prefix) && s == v[|prefix|..]
    decreases |values|
  {
    if values != [] {
      ExtractMembers(values[1..], prefix);
      forall s ensures s in Extract(values, prefix) <==>
        exists v :: v in values && Keeps(v, prefix) && s == v[|prefix|..]
      {
        if s in Extract(values[1..], prefix) {
          var v :| v in values[1..] && Keeps(v, prefix) && s == v[|prefix|..];
          assert v in values;
        }
        if exists v :: v in values && Keeps(v, prefix) && s == v[|prefix|..] {
          var v :| v in values && Keeps(v, prefix) && s == v[|prefix|..];
          if v != values[0] {
            assert v in values[1..];
          }
        }
      }
    }
  }

  /** With an empty prefix every value comes back unchanged and in order. */
  lemma {:induction false} EmptyPrefixKeepsAll(values: seq<string>)
    ensures Extract(values, "") == values
    decreases |values|
  {
    if values != [] {
      EmptyPrefixKeepsAll(values[1..]);
      assert values[0][0..] == values[0];
      assert values == [values[0]] + values[1..];
    }
  }

  /** A value no longer than a non-empty prefix, such as a bare "Bearer", is dropped. */
  lemma ShortValueDropped(value: string, prefix: string)
    requires |prefix| > 0 && |value| <= |prefix|
    ensures Extract([value], prefix) == []
  {
    ExtractOne(value, prefix);
  }

  /** The prefix is matched without regard to ASCII case. */
  lemma PrefixCaseInsensitive()
    ensures Extract(["bearer token"], "Bearer ") == ["token"]
  {
    var v := "bearer token";
    assert v[..7] == "bearer ";
    assert EqualFold(v[..7], "Bearer ");
    ExtractOne(v, "Bearer ");
  }

  /** The three outcomes in terms of the inputs: no values, nothing kept, or the
      extracted list. */
  lemma ValuesFromHeaderCases(values: seq<string>, prefix: string)
    ensures ValuesFromHeader(values, prefix) ==
      if values == [] then Err(ErrHeaderNotFound)
      else if forall v :: v in values ==> !Keeps(v, prefix) then Err(ErrValueNotFound)
      else Ok(Extract(values, prefix))
  {
    ExtractMembers(values, prefix);
    if values != [] && !(forall v :: v in values ==> !Keeps(v, prefix)) {
      var v :| v in values && Keeps(v, prefix);
      assert v[|prefix|..] in Extract(values, prefix);
    }
  }
}
