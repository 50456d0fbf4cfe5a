/** How one spreadsheet row of the doctors' service book becomes the text
    that is embedded and the document that is indexed. */
module RowToDocument {
  import opened Wrappers
  import opened PyText

  /** A spreadsheet cell: `None` is pandas' NaN (a missing cell), `Some(t)`
      holds the cell's text, `str(cell)`. */
  type Cell = Option<string>

  /** One row of the sheet, one cell per column the script reads. */
  datatype Row = Row(
    street: Cell,
    houseNumber: Cell,
    firstName: Cell,
    lastName: Cell,
    title: Cell,
    specialty: Cell,
    subspecialty: Cell,
    city: Cell,
    licenseNumber: Cell,
    phones: Cell)

  /** The text values the script composes from a row, missing cells
      already replaced by "". */
  datatype Fields = Fields(
    street: string,
    houseNumber: string,
    streetAddress: string,
    firstName: string,
    lastName: string,
    title: string,
    specialty: string,
    subspecialty: string,
    city: string)

  /** The vector the inference endpoint returns. Its numbers are only passed
      along, never computed with. */
  type Embedding = seq<real>

  /** The document submitted to the index; `None` is a JSON null. */
  datatype Document = Document(
    firstName: Option<string>,
    lastName: Option<string>,
    licenseNumber: Option<string>,
    title: Option<string>,
    specialty: Option<string>,
    subspecialty: Option<string>,
    phoneNumbers: seq<string>,
    city: Option<string>,
    street: Option<string>,
    houseNumber: Option<string>,
    embedding: Embedding)

  /** `cell if pd.notna(cell) else ''`. */
  function OrEmpty(c: Cell): string
  {
    match c
    case None => ""
    case Some(t) => t
  }

  /** `value if value else None` for a text value. */
  function NoneIfEmpty(s: string): Option<string>
  {
    if s == "" then None else Some(s)
  }

  /** Putting a text into a document and reading it back with `OrEmpty`
      gives the text again; the other way round, only a present but empty
      cell is not given back. */
  lemma NoneIfEmptyRoundTrip(s: string, c: Cell)
    ensures OrEmpty(NoneIfEmpty(s)) == s
    ensures NoneIfEmpty(OrEmpty(c)) == c <==> c != Some("")
  {
  }

  /** `f"{street} {house_number}".strip()`. */
  function StreetAddress(street: string, houseNumber: string): string
  {
    Strip(street + " " + houseNumber)
  }

  /** The street address is "" exactly when street and house number are both
      whitespace only (in particular when both are missing), and it never
      starts or ends with whitespace. */
  lemma StreetAddressShape(street: string, houseNumber: string)
    ensures StreetAddress(street, houseNumber) == "" <==> AllSpace(street) && AllSpace(houseNumber)
    ensures Trimmed(StreetAddress(street, houseNumber))
  {
    var s := street + " " + houseNumber;
    StripTrims(s);
    AllSpaceConcat(street, " ");
    AllSpaceConcat(street + " ", houseNumber);
    assert AllSpace(" ") by {
      assert IsSpace(' ');
    }
  }

  /** For parts that carry no surrounding whitespace the address is the two
      parts with one space between them, or the one part that is present. */
  lemma StreetAddressOfTrimmed(street: string, houseNumber: string)
    requires Trimmed(street) && Trimmed(houseNumber)
    ensures StreetAddress(street, houseNumber) ==
      if street == "" then houseNumber
      else if houseNumber == "" then street
      else street + " " + houseNumber
  {
    var s := street + " " + houseNumber;
    var n := |street|;
    assert IsSpace(' ');
    if street == "" {
      assert s[1..] == houseNumber;
      if houseNumber == "" {
        StripUnique(s, 1, 1);
      } else {
        StripUnique(s, 1, |s|);
      }
    } else if houseNumber == "" {
      assert s[..n] == street;
      StripUnique(s, 0, n);
    } else {
      assert s[0] == street[0];
      assert s[|s| - 1] == houseNumber[|houseNumber| - 1];
      assert s[0..|s|] == s;
      StripUnique(s, 0, |s|);
    }
  }

  /** The values the script composes from a row (lines 82-92). */
  function Compose(row: Row): Fields
  {
    var street := OrEmpty(row.street);
    var houseNumber := OrEmpty(row.houseNumber);
    Fields(
      street,
      houseNumber,
      StreetAddress(street, houseNumber),
      OrEmpty(row.firstName),
      OrEmpty(row.lastName),
      OrEmpty(row.title),
      OrEmpty(row.specialty),
      OrEmpty(row.subspecialty),
      OrEmpty(row.city))
  }

  /** A missing cell becomes "" and a present one keeps its text, for each
      of the eight composed columns. */
  lemma MissingCellsBecomeEmpty(row: Row)
    ensures var f := Compose(row);
      (row.street.None? ==> f.street == "") && (row.street.Some? ==> f.street == row.street.value)
      && (row.houseNumber.None? ==> f.houseNumber == "") && (row.houseNumber.Some? ==> f.houseNumber == row.houseNumber.value)
      && (row.firstName.None? ==> f.firstName == "") && (row.firstName.Some? ==> f.firstName == row.firstName.value)
      && (row.lastName.None? ==> f.lastName == "") && (row.lastName.Some? ==> f.lastName == row.lastName.value)
      && (row.title.None? ==> f.title == "") && (row.title.Some? ==> f.title == row.title.value)
      && (row.specialty.None? ==> f.specialty == "") && (row.specialty.Some? ==> f.specialty == row.specialty.value)
      && (row.subspecialty.None? ==> f.subspecialty == "") && (row.subspecialty.Some? ==> f.subspecialty == row.subspecialty.value)
      && (row.city.None? ==> f.city == "") && (row.city.Some? ==> f.city == row.city.value)
  {
  }

  /** The seven parts of the embedding text, in the script's order. */
  function TextParts(f: Fields): seq<string>
  {
    [f.firstName, f.lastName, f.title, f.specialty, f.subspecialty, f.city, f.streetAddress]
  }

  /** `f"{first_name} {last_name} {title} {specialty} {subspecialty} {city} {street_address}"`. */
  function EmbeddingText(f: Fields): string
  {
    JoinWithSpaces(TextParts(f))
  }

  /** The embedding text is the seven parts in order with one space between
      neighbours, nothing stripped. */
  lemma EmbeddingTextShape(f: Fields)
    ensures EmbeddingText(f) ==
      f.firstName + " " + f.lastName + " " + f.title + " " + f.specialty + " "
      + f.subspecialty + " " + f.city + " " + f.streetAddress
  {
    var p6 := [f.streetAddress];
    var p5 := [f.city] + p6;
    var p4 := [f.subspecialty] + p5;
    var p3 := [f.specialty] + p4;
    var p2 := [f.title] + p3;
    var p1 := [f.lastName] + p2;
    assert TextParts(f) == [f.firstName] + p1;
    JoinCons(f.city, p6);
    JoinCons(f.subspecialty, p5);
    JoinCons(f.specialty, p4);
    JoinCons(f.title, p3);
    JoinCons(f.lastName, p2);
    JoinCons(f.firstName, p1);
  }

  /** Its length is that of the parts plus 6, and it holds at least 6
      spaces whatever the fields are, empty ones included. */
  lemma EmbeddingTextSeparators(f: Fields)
    ensures |EmbeddingText(f)| ==
      |f.firstName| + |f.lastName| + |f.title| + |f.specialty| + |f.subspecialty| + |f.city| + |f.streetAddress| + 6
    ensures Occurrences(' ', EmbeddingText(f)) >= 6
  {
    EmbeddingTextShape(f);
    JoinWithSpacesCounts(TextParts(f));
  }

  /** When no part holds a space, the embedding text determines the seven
      parts: splitting it on spaces gives them back. */
  lemma EmbeddingTextDeterminesParts(f: Fields)
    requires forall p :: p in TextParts(f) ==> ' ' !in p
    ensures SplitOnSpace(EmbeddingText(f)) == TextParts(f)
  {
    SplitJoin(TextParts(f));
  }

  /** When the six parts before the street address hold no space, the
      embedding text determines all seven: splitting it on spaces gives the
      first six, and the street address is everything after the sixth
      space. */
  lemma EmbeddingTextDeterminesFields(f: Fields)
    requires forall k :: 0 <= k < 6 ==> SpaceFree(TextParts(f)[k])
    ensures |SplitOnSpace(EmbeddingText(f))| >= 7
    ensures SplitOnSpace(EmbeddingText(f))[..6] == TextParts(f)[..6]
    ensures f.streetAddress == JoinWithSpaces(SplitOnSpace(EmbeddingText(f))[6..])
  {
    var parts := TextParts(f);
    SplitJoinLeading(parts);
    var s := SplitOnSpace(EmbeddingText(f));
    assert s[6..] == SplitOnSpace(f.streetAddress);
    JoinSplit(f.streetAddress);
  }

  /** Under the same condition, two field sets with the same embedding text
      agree on all seven parts. */
  lemma EmbeddingTextInjective(f: Fields, g: Fields)
    requires forall k :: 0 <= k < 6 ==> SpaceFree(TextParts(f)[k]) && SpaceFree(TextParts(g)[k])
    requires EmbeddingText(f) == EmbeddingText(g)
    ensures TextParts(f) == TextParts(g)
  {
    JoinInjective(TextParts(f), TextParts(g));
  }

  /** A row with only first name, last name and city: the empty fields still
      contribute their separators. */
  lemma EmbeddingTextExample()
    ensures EmbeddingText(Compose(Row(None, None, Some("דנה"), Some("כהן"), None, None, None, Some("תל אביב"), None, None)))
      == "דנה כהן    תל אביב "
  {
    StreetAddressShape("", "");
  }

  /** `parse_phones`: "literalEval" is Python's `ast.literal_eval`, with
      `None` when it raises. */
  function ParsePhones(cell: Cell, literalEval: string -> Option<seq<string>>): seq<string>
  {
    match cell
    case None => []
    case Some(text) =>
      match literalEval(text)
      case None => []
      case Some(phones) => phones
  }

  /** `parse_phones` reports an error exactly when a present cell does not
      evaluate. */
  predicate PhoneParseFails(cell: Cell, literalEval: string -> Option<seq<string>>)
  {
    cell.Some? && literalEval(cell.value).None?
  }

  /** A missing cell and a failed evaluation both give the empty list;
      otherwise the evaluated list is returned unchanged. */
  lemma ParsePhonesCases(cell: Cell, literalEval: string -> Option<seq<string>>)
    ensures cell.None? ==> ParsePhones(cell, literalEval) == []
    ensures PhoneParseFails(cell, literalEval) ==> ParsePhones(cell, literalEval) == []
    ensures cell.Some? && literalEval(cell.value).Some? ==>
      ParsePhones(cell, literalEval) == literalEval(cell.value).value
  {
  }

  /** The document built for a row whose embedding succeeded (lines 104-116). */
  function BuildDocument(row: Row, embedding: Embedding, literalEval: string -> Option<seq<string>>): Document
  {
    var f := Compose(row);
    Document(
      NoneIfEmpty(f.firstName),
      NoneIfEmpty(f.lastName),
      row.licenseNumber,
      NoneIfEmpty(f.title),
      NoneIfEmpty(f.specialty),
      NoneIfEmpty(f.subspecialty),
      ParsePhones(row.phones, literalEval),
      NoneIfEmpty(f.city),
      NoneIfEmpty(f.street),
      NoneIfEmpty(f.houseNumber),
      embedding)
  }

  /** Each text field of the document is null exactly when its composed
      value is "", and otherwise holds that value unchanged. The license
      number is null exactly when its cell is missing and may be "". The
      phones are the parsed list and the embedding is the one given. */
  lemma DocumentFields(row: Row, embedding: Embedding, literalEval: string -> Option<seq<string>>)
    ensures var f, d := Compose(row), BuildDocument(row, embedding, literalEval);
      (d.firstName.None? <==> f.firstName == "") && OrEmpty(d.firstName) == f.firstName
      && (d.lastName.None? <==> f.lastName == "") && OrEmpty(d.lastName) == f.lastName
      && (d.title.None? <==> f.title == "") && OrEmpty(d.title) == f.title
      && (d.specialty.None? <==> f.specialty == "") && OrEmpty(d.specialty) == f.specialty
      && (d.subspecialty.None? <==> f.subspecialty == "") && OrEmpty(d.subspecialty) == f.subspecialty
      && (d.city.None? <==> f.city == "") && OrEmpty(d.city) == f.city
      && (d.street.None? <==> f.street == "") && OrEmpty(d.street) == f.street
      && (d.houseNumber.None? <==> f.houseNumber == "") && OrEmpty(d.houseNumber) == f.houseNumber
      && (d.licenseNumber.None? <==> row.licenseNumber.None?)
      && (row.licenseNumber.Some? ==> d.licenseNumber == row.licenseNumber)
      && d.phoneNumbers == ParsePhones(row.phones, literalEval)
      && d.embedding == embedding
  {
  }

  /** Unlike the other text fields, a present but empty license number is
      stored as "" and not as null. */
  lemma EmptyLicenseIsKept(embedding: Embedding, literalEval: string -> Option<seq<string>>)
    ensures var d := BuildDocument(Row(None, None, Some(""), None, None, None, None, None, Some(""), None), embedding, literalEval);
      d.licenseNumber == Some("") && d.firstName == None
  {
  }

  /** The embedding text recomputed from a stored document. */
  function DocumentText(d: Document): string
  {
    var address := StreetAddress(OrEmpty(d.street), OrEmpty(d.houseNumber));
    JoinWithSpaces([OrEmpty(d.firstName), OrEmpty(d.lastName), OrEmpty(d.title),
                    OrEmpty(d.specialty), OrEmpty(d.subspecialty), OrEmpty(d.city), address])
  }

  /** Turning empty values into nulls loses nothing the embedding text
      needs: the text that was embedded can be recomputed from the document. */
  lemma DocumentRestoresText(row: Row, embedding: Embedding, literalEval: string -> Option<seq<string>>)
    ensures DocumentText(BuildDocument(row, embedding, literalEval)) == EmbeddingText(Compose(row))
  {
    DocumentFields(row, embedding, literalEval);
  }

  /** The model the script asks for embeddings. */
  const ModelId: string := ".multilingual-e5-small"

  /** `predicted_value` of one inference result: missing key, JSON null, or
      a vector. */
  datatype Predicted = Absent | Null | Vector(values: Embedding)

  /** What `client.ml.infer_trained_model` does: raise, or answer with its
      list of inference results. */
  datatype InferResponse = InferRaised | InferResponded(results: seq<Predicted>)

  /** `generate_embedding` run to its end: an embedding, a `None` returned
      without an exception, or an exception caught and reported. */
  datatype Attempt = Embedded(embedding: Embedding) | NullValue | Raised
  {
    /** What `generate_embedding` returns when it ends this way. */
    function Returned(): Option<Embedding>
    {
      if Embedded? then Some(embedding) else None
    }
  }

  /** The body of `generate_embedding`'s try block on a given response. */
  function EmbeddingAttempt(response: InferResponse): Attempt
  {
    match response
    case InferRaised => Raised
    case InferResponded(results) =>
      if results == [] then Raised
      else match results[0]
        case Absent => Raised
        case Null => NullValue
        case Vector(v) => Embedded(v)
  }

  /** `generate_embedding(client, model_id, text)`, with the remote call given
      as `infer(model_id, text)`. */
  function GenerateEmbedding(infer: (string, string) -> InferResponse, text: string): Option<Embedding>
  {
    EmbeddingAttempt(infer(ModelId, text)).Returned()
  }

  /** An embedding is produced exactly when the first inference result holds
      a vector, and it is that vector; every exception (the call failing, no
      result, no `predicted_value`) ends in `None`. */
  lemma GenerateEmbeddingCases(infer: (string, string) -> InferResponse, text: string)
    ensures var r := infer(ModelId, text);
      GenerateEmbedding(infer, text).Some? <==>
        r.InferResponded? && |r.results| > 0 && r.results[0].Vector?
    ensures var r := infer(ModelId, text);
      GenerateEmbedding(infer, text).Some? ==> GenerateEmbedding(infer, text).value == r.results[0].values
    ensures EmbeddingAttempt(infer(ModelId, text)) == Raised ==> GenerateEmbedding(infer, text) == None
  {
  }
}
