/**
 * The `assemble_cors_origins` validator of the application settings: a comma-separated
 * string of origins becomes the list of its stripped items; a string that starts with
 * `[` (a JSON list, left to the settings parser) and a list pass unchanged; anything else
 * is refused.
 */
module CorsConfig {
  import opened Wrappers
  import opened Strings

  /** The raw value of the setting: a string, a list of strings, or a value of another type. */
  datatype CorsValue = Text(s: string) | Items(items: seq<string>) | OtherValue

  /** `ValueError(v)`, carrying the refused value. */
  datatype ValueError = ValueError(value: CorsValue)

  /** No leading or trailing whitespace. */
  predicate IsStripped(x: string) {
    x == [] || (!IsSpace(x[0]) && !IsSpace(x[|x| - 1]))
  }

  function AssembleCorsOrigins(v: CorsValue): (r: Result<CorsValue, ValueError>)
    ensures r.Err? <==> v.OtherValue?
    ensures r.Err? ==> r.error == ValueError(v)
    ensures v.Items? || (v.Text? && StartsWith(v.s, "[")) ==> r == Ok(v)
    ensures v.Text? && !StartsWith(v.s, "[") ==>
      r.Ok? && r.value.Items? &&
      |r.value.items| == multiset(v.s)[','] + 1 &&
      forall i :: 0 <= i < |r.value.items| ==> IsStripped(r.value.items[i]) && ',' !in r.value.items[i]
  {
    match v
    case Text(s) =>
      if !StartsWith(s, "[") then
        var pieces := Split(s, ',');
        var items := seq(|pieces|, i requires 0 <= i < |pieces| => Strip(pieces[i]));
        assert forall i :: 0 <= i < |items| ==> IsStripped(items[i]) && ',' !in items[i] by {
          forall i | 0 <= i < |items| ensures IsStripped(items[i]) && ',' !in items[i] {
            var a, b := StripCharsShape(pieces[i], Whitespace);
            assert items[i] == pieces[i][a..b];
          }
        }
        Ok(Items(items))
      else Ok(v)
    case Items(_) => Ok(v)
    case OtherValue => Err(ValueError(v))
  }

  /** Each item is the matching comma-separated piece of the string, stripped. */
  lemma ItemsAreStrippedPieces(s: string)
    requires !StartsWith(s, "[")
    ensures var items := AssembleCorsOrigins(Text(s)).value.items; var pieces := Split(s, ',');
      |items| == |pieces| && forall i :: 0 <= i < |items| ==> items[i] == Strip(pieces[i])
  {
  }

  /**
   * The items are the string cut at its commas, each piece stripped: there are comma-free
   * pieces that join with ',' to the string and strip to the items, one for one.
   */
  lemma ItemsAreStrippedCommaPieces(s: string)
    requires !StartsWith(s, "[")
    ensures var items := AssembleCorsOrigins(Text(s)).value.items;
      exists pieces {:trigger Join(pieces, ',')} :: Join(pieces, ',') == s &&
        (forall i :: 0 <= i < |pieces| ==> ',' !in pieces[i]) &&
        |items| == |pieces| && forall i :: 0 <= i < |items| ==> items[i] == Strip(pieces[i])
  {
    ItemsAreStrippedPieces(s);
    var pieces := Split(s, ',');
    var items := AssembleCorsOrigins(Text(s)).value.items;
    assert Join(pieces, ',') == s &&
      (forall i :: 0 <= i < |pieces| ==> ',' !in pieces[i]) &&
      |items| == |pieces| && forall i :: 0 <= i < |items| ==> items[i] == Strip(pieces[i]);
  }

  /** The empty string is one empty origin, not none. */
  lemma EmptyStringIsOneEmptyItem()
    ensures AssembleCorsOrigins(Text("")) == Ok(Items([""]))
  {
    assert !StartsWith("", "[");
    ItemsAreStrippedPieces("");
    assert Split("", ',') == [""];
    var items := AssembleCorsOrigins(Text("")).value.items;
    assert items[0] == Strip("") == "";
    assert items == [""];
  }

  /** Without whitespace in the string, joining the items with commas gives the string back. */
  lemma JoinItemsRoundTrip(s: string)
    requires !StartsWith(s, "[")
    requires forall k :: 0 <= k < |s| ==> !IsSpace(s[k])
    ensures Join(AssembleCorsOrigins(Text(s)).value.items, ',') == s
  {
    var pieces := Split(s, ',');
    var items := AssembleCorsOrigins(Text(s)).value.items;
    forall i | 0 <= i < |pieces| ensures items[i] == pieces[i] {
      PieceHasNoSpace(s, pieces, i);
      var p := pieces[i];
      StripCharsNoop(p, Whitespace);
    }
    assert items == pieces;
  }

  /** Every piece of a string without whitespace is without whitespace. */
  lemma PieceHasNoSpace(s: string, pieces: seq<string>, i: nat)
    requires pieces == Split(s, ',') && i < |pieces|
    requires forall k :: 0 <= k < |s| ==> !IsSpace(s[k])
    ensures forall k :: 0 <= k < |pieces[i]| ==> !IsSpace(pieces[i][k])
  {
    forall k | 0 <= k < |pieces[i]| ensures !IsSpace(pieces[i][k]) {
      CharOfPiece(pieces, ',', i, k);
    }
  }

  /** A character of a piece is a character of the joined string. */
  lemma {:induction false} CharOfPiece(parts: seq<string>, sep: char, i: nat, k: nat)
    requires i < |parts| && k < |parts[i]|
    ensures parts[i][k] in Join(parts, sep)
  {
    if i == 0 {
      assert parts[0][k] in parts[0];
    } else {
      CharOfPiece(parts[1..], sep, i - 1, k);
    }
  }
}
