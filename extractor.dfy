/**
 * Per-text taxon extraction (`extract_species_from_text`): the text of one
 * table cell is handed to the TaxoNERD recognizer, the spans labelled TAXON
 * are kept, stripped and deduplicated.
 */
module Extractor {
  import opened Optional
  import opened Strings

  /** One entity span the recognizer reports: its text and its label (`label_`). */
  datatype Span = Span(text: string, tag: string)

  /** The label TaxoNERD gives to taxonomic entities; the only label kept. */
  const TaxonLabel: string := "TAXON"

  /**
   * The loaded recognizer. What it reports for a text is the pure function
   * `recognize`; `calls` counts the texts handed to it, so that the
   * short-circuit on blank cells can be stated.
   */
  class TaxonModel {
    const recognize: string -> seq<Span>
    ghost var calls: nat

    constructor (recognize: string -> seq<Span>)
      ensures this.recognize == recognize && calls == 0
    {
      this.recognize := recognize;
      calls := 0;
    }

    /** `nlp(text)`: runs the recognizer on one text. */
    method Process(text: string) returns (spans: seq<Span>)
      modifies this
      ensures spans == recognize(text)
      ensures calls == old(calls) + 1
    {
      spans := recognize(text);
      calls := calls + 1;
    }
  }

  /** A cell that is NaN, or a string that strips to nothing. */
  predicate IsBlankCell(text: Option<string>) {
    text.None? || Strip(text.value) == []
  }

  /** The stripped texts of the TAXON spans, in span order, repeats included. */
  function TaxonTexts(spans: seq<Span>): seq<string>
  {
    if spans == [] then []
    else
      var last := spans[|spans| - 1];
      TaxonTexts(spans[..|spans| - 1]) + (if last.tag == TaxonLabel then [Strip(last.text)] else [])
  }

  /** `span` is labelled TAXON and strips to `x`. */
  predicate NamesTaxon(span: Span, x: string) {
    span.tag == TaxonLabel && Strip(span.text) == x
  }

  /**
   * A string is among the taxon texts exactly when some span labelled TAXON
   * strips to it; spans with any other label contribute nothing.
   */
  lemma {:induction false} TaxonTextsMembers(spans: seq<Span>, x: string)
    ensures x in TaxonTexts(spans) <==> exists i :: 0 <= i < |spans| && NamesTaxon(spans[i], x)
  {
    if spans != [] {
      var init := spans[..|spans| - 1];
      var last := spans[|spans| - 1];
      var tail := if last.tag == TaxonLabel then [Strip(last.text)] else [];
      assert TaxonTexts(spans) == TaxonTexts(init) + tail;
      assert x in tail <==> NamesTaxon(last, x);
      TaxonTextsMembers(init, x);
      if x in TaxonTexts(init) {
        var i :| 0 <= i < |init| && NamesTaxon(init[i], x);
        assert spans[i] == init[i];
      } else if NamesTaxon(last, x) {
        assert NamesTaxon(spans[|spans| - 1], x);
      } else {
        forall i | 0 <= i < |spans| ensures !NamesTaxon(spans[i], x) {
          if i < |init| {
            assert spans[i] == init[i];
          }
        }
      }
    }
  }

  /**
   * `list(set(xs))`: each string of `xs` once. Python leaves the order to set
   * iteration; this definition keeps first occurrences, and no contract in
   * the model depends on that order.
   */
  function Unique(xs: seq<string>): (r: seq<string>)
    ensures NoDuplicates(r)
    ensures forall x :: x in r <==> x in xs
  {
    if xs == [] then []
    else
      var init := xs[..|xs| - 1];
      var last := xs[|xs| - 1];
      var u := Unique(init);
      assert forall x :: x in xs <==> x in init || x == last;
      if last in u then u else u + [last]
  }

  /**
   * What `extract_species_from_text` may return for a cell whose text is
   * recognized by `recognize`: nothing for a blank cell; otherwise each
   * stripped TAXON text exactly once, in no particular order.
   */
  ghost predicate IsSpeciesListFor(species: seq<string>, recognize: string -> seq<Span>, text: Option<string>) {
    if IsBlankCell(text) then species == []
    else NoDuplicates(species) && forall x :: x in species <==> x in TaxonTexts(recognize(text.value))
  }

  /**
   * `extract_species_from_text(nlp, text)`: a blank cell returns `[]` without
   * calling the recognizer; any other text is recognized once, its TAXON
   * spans are stripped into a list, and the list is deduplicated.
   */
  method ExtractSpeciesFromText(nlp: TaxonModel, text: Option<string>) returns (species: seq<string>)
    modifies nlp
    ensures IsSpeciesListFor(species, nlp.recognize, text)
    ensures nlp.calls == old(nlp.calls) + (if IsBlankCell(text) then 0 else 1)
  {
    if text.None? || Strip(text.value) == [] {
      return [];
    }
    var spans := nlp.Process(text.value);
    var entities: seq<string> := [];
    for i := 0 to |spans|
      invariant entities == TaxonTexts(spans[..i])
    {
      assert spans[..i + 1][..i] == spans[..i];
      if spans[i].tag == TaxonLabel {
        entities := entities + [Strip(spans[i].text)];
      }
    }
    assert spans[..|spans|] == spans;
    species := Unique(entities);
  }

  /** Every species returned for a cell is stripped, so stripping it again changes nothing. */
  lemma SpeciesAreStripped(species: seq<string>, recognize: string -> seq<Span>, text: Option<string>, x: string)
    requires IsSpeciesListFor(species, recognize, text) && x in species
    ensures Strip(x) == x
  {
    var spans := recognize(text.value);
    TaxonTextsMembers(spans, x);
    var i :| 0 <= i < |spans| && NamesTaxon(spans[i], x);
    StripIdempotent(spans[i].text);
  }
}
