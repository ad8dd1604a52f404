/**
 * The CNPS rare-plant search URL: a fixed query prefix selecting the rare
 * plant ranks 1B, 2B and 4, followed by a `quad` parameter listing the
 * search quad codes, each terminated by a colon.
 */
module CnpsQuery {

  const CnpsSearchPrefix: string := "https://rareplants.cnps.org/Search/result?&crpr=1B:2B:4"
  const QuadParameter: string := "&quad="

  /** Each quad code followed by a colon, in list order. */
  function ColonTerminated(quads: seq<string>): string {
    if quads == [] then ""
    else ColonTerminated(quads[..|quads| - 1]) + quads[|quads| - 1] + ":"
  }

  predicate NoColon(s: string) {
    forall i :: 0 <= i < |s| ==> s[i] != ':'
  }

  /**
   * Builds the quad parameter by appending one code and a colon per quad,
   * then puts the fixed search prefix in front.
   */
  method BuildSearchUrl(quads: seq<string>) returns (url: string)
    ensures url == CnpsSearchPrefix + QuadParameter + ColonTerminated(quads)
    ensures CnpsSearchPrefix + QuadParameter <= url
  {
    var quadString := QuadParameter;
    var i := 0;
    while i < |quads|
      invariant 0 <= i <= |quads|
      invariant quadString == QuadParameter + ColonTerminated(quads[..i])
    {
      assert quads[..i + 1][..i] == quads[..i];
      quadString := quadString + quads[i] + ":";
      i := i + 1;
    }
    assert quads[..|quads|] == quads;
    url := CnpsSearchPrefix + quadString;
  }

  /** Position just after the last colon of s, or 0 when s has none. */
  function FieldStart(s: string): (k: nat)
    ensures k <= |s|
    ensures forall i :: k <= i < |s| ==> s[i] != ':'
    ensures k > 0 ==> s[k - 1] == ':'
  {
    if s == [] then 0
    else if s[|s| - 1] == ':' then |s|
    else FieldStart(s[..|s| - 1])
  }

  /**
   * Reads a colon-terminated list back into its fields: the last field runs
   * from the previous colon to the final one.
   */
  function SplitTerminated(s: string): seq<string>
    decreases |s|
  {
    if s == [] then []
    else
      var body := s[..|s| - 1];
      var k := FieldStart(body);
      SplitTerminated(body[..k]) + [body[k..]]
  }

  /** After a colon-terminated prefix, a colon-free field starts right where the prefix ends. */
  lemma FieldStartAfterPrefix(prefix: string, field: string)
    requires prefix == [] || prefix[|prefix| - 1] == ':'
    requires NoColon(field)
    ensures FieldStart(prefix + field) == |prefix|
  {
    var s := prefix + field;
    var k := FieldStart(s);
    assert prefix != [] ==> s[|prefix| - 1] == ':';
    assert forall i :: |prefix| <= i < |s| ==> s[i] == field[i - |prefix|];
  }

  /** The quad parameter is empty or ends with a colon. */
  lemma ColonTerminatedEnds(quads: seq<string>)
    ensures var s := ColonTerminated(quads); s == [] || s[|s| - 1] == ':'
  {
  }

  /** Splitting drops the final colon-free field and its terminator off the end. */
  lemma SplitLastField(prefix: string, field: string)
    requires prefix == [] || prefix[|prefix| - 1] == ':'
    requires NoColon(field)
    ensures SplitTerminated(prefix + field + ":") == SplitTerminated(prefix) + [field]
  {
    var s := prefix + field + ":";
    var body := s[..|s| - 1];
    assert body == prefix + field;
    FieldStartAfterPrefix(prefix, field);
    assert body[..|prefix|] == prefix && body[|prefix|..] == field;
  }

  lemma SplitAtLast(quads: seq<string>)
    requires quads != []
    ensures quads == quads[..|quads| - 1] + [quads[|quads| - 1]]
  {
  }

  /**
   * When no quad code contains a colon, the quad parameter determines the
   * quad list: splitting it at the colons gives back the codes in order.
   */
  lemma {:induction false} QuadListRoundTrip(quads: seq<string>)
    requires forall i :: 0 <= i < |quads| ==> NoColon(quads[i])
    ensures SplitTerminated(ColonTerminated(quads)) == quads
    decreases |quads|
  {
    if quads != [] {
      var init, last := quads[..|quads| - 1], quads[|quads| - 1];
      var prefix := ColonTerminated(init);
      assert ColonTerminated(quads) == prefix + last + ":";
      assert NoColon(last);
      ColonTerminatedEnds(init);
      SplitLastField(prefix, last);
      assert forall i :: 0 <= i < |init| ==> init[i] == quads[i];
      QuadListRoundTrip(init);
      SplitAtLast(quads);
    }
  }
}
