/** Model of the request validators (`serializers.py`): the upload's file
    check and the query request's field and object checks.

    The framework's own field handling (trimming, rejection of blank strings,
    UUID parsing) is not part of this model: the request carries the values
    the validators in the serializer module see. */
module Validation {
  import opened Common

  datatype Result<+T, +E> = Ok(value: T) | Err(error: E)

  /** An uploaded file: its client-side name, its size and its bytes. */
  datatype UploadedFile = UploadedFile(name: string, size: nat, content: seq<bv8>)

  /** The 15 MB limit written after the `return` of `validate_file`; nothing
      ever compares against it. */
  const DeclaredMaxUploadSize: nat := 15 * 1024 * 1024

  const NotPdfOrTxt := "File must be a PDF or TXT"

  /** `DocumentUploadSerializer.validate_file`. */
  function ValidateFile(f: UploadedFile): (r: Result<UploadedFile, string>)
    ensures r.Ok? <==> EndsWith(f.name, ".pdf") || EndsWith(f.name, ".txt")
    ensures r.Ok? ==> r.value == f
    ensures r.Err? ==> r.error == NotPdfOrTxt
  {
    if !(EndsWith(f.name, ".pdf") || EndsWith(f.name, ".txt")) then Err(NotPdfOrTxt)
    else Ok(f)
  }

  /** The size check is unreachable: the verdict never depends on the size, so
      an accepted name is accepted at any size, beyond 15 MB included. */
  lemma NoUploadSizeLimit(f: UploadedFile, size: nat)
    ensures ValidateFile(f.(size := size)).Ok? == ValidateFile(f).Ok?
    ensures ValidateFile(f).Ok? && size > DeclaredMaxUploadSize ==> ValidateFile(f.(size := size)).Ok?
  {
  }

  // ---------------------------------------------------------------------------
  // QuerySerializer
  // ---------------------------------------------------------------------------

  const QueryMaxLength := 1000
  const QuestionMaxLength := 1000
  const ModelFieldMaxLength := 50

  /** The optional fields of a query request. */
  datatype QueryRequest = QueryRequest(
    query: Option<string>,
    question: Option<string>,
    documentId: Option<string>,
    model: Option<string>)

  datatype QueryError =
    | QueryTooLong
    | QueryEmpty          // validate_query: "Query cannot be empty"
    | QuestionTooLong
    | ModelTooLong
    | NeitherGiven        // validate: "Either 'query' or 'question' must be provided"

  /** The fields the view reads from a valid request; `text` is
      `validated_data.get('query') or validated_data.get('question')`. */
  datatype ValidQuery = ValidQuery(text: string, documentId: Option<string>, model: Option<string>)

  /** `QuerySerializer.validate_query`. */
  function ValidateQueryField(value: string): (r: Result<string, QueryError>)
    ensures r.Ok? <==> !IsBlank(value)
    ensures r.Ok? ==> r.value == value
  {
    StripEmptyIffBlank(value);
    if Strip(value) == [] then Err(QueryEmpty) else Ok(value)
  }

  /** The errors of the field-level pass, in field order: `max_length` on
      each field, then `validate_query` on a `query` of legal length. */
  function FieldErrors(req: QueryRequest): seq<QueryError>
  {
    (if req.query.Some? && |req.query.value| > QueryMaxLength then [QueryTooLong]
     else if req.query.Some? && ValidateQueryField(req.query.value).Err? then [QueryEmpty]
     else [])
    + (if req.question.Some? && |req.question.value| > QuestionMaxLength then [QuestionTooLong] else [])
    + (if req.model.Some? && |req.model.value| > ModelFieldMaxLength then [ModelTooLong] else [])
  }

  /** `QuerySerializer(data=...).is_valid()` and the view's choice of text:
      field checks first; only if they all pass, the object-level `validate`. */
  function ValidateQueryRequest(req: QueryRequest): (r: Result<ValidQuery, seq<QueryError>>)
    ensures r.Ok? ==> r.value.documentId == req.documentId && r.value.model == req.model
    ensures r.Err? ==> |r.error| > 0
  {
    var errs := FieldErrors(req);
    if |errs| > 0 then Err(errs)
    else if !Truthy(req.query) && !Truthy(req.question) then Err([NeitherGiven])
    else Ok(ValidQuery(if Truthy(req.query) then req.query.value else req.question.value,
                       req.documentId, req.model))
  }

  /** A request is accepted exactly when every present field is within its
      length bound, a present `query` is not blank, and at least one of
      `query` and `question` is non-empty; the text used is `query` when it is
      given and `question` otherwise. */
  lemma QueryRequestAccepted(req: QueryRequest)
    ensures ValidateQueryRequest(req).Ok? <==>
              && (req.query.Some? ==> |req.query.value| <= QueryMaxLength && !IsBlank(req.query.value))
              && (req.question.Some? ==> |req.question.value| <= QuestionMaxLength)
              && (req.model.Some? ==> |req.model.value| <= ModelFieldMaxLength)
              && (Truthy(req.query) || Truthy(req.question))
    ensures ValidateQueryRequest(req).Ok? && req.query.Some? ==>
              ValidateQueryRequest(req).value.text == req.query.value
    ensures ValidateQueryRequest(req).Ok? && req.query.None? ==>
              ValidateQueryRequest(req).value.text == req.question.value
    ensures ValidateQueryRequest(req).Ok? ==>
              0 < |ValidateQueryRequest(req).value.text| <= QueryMaxLength
  {
    if req.query.Some? && |req.query.value| <= QueryMaxLength && !IsBlank(req.query.value) {
      assert req.query.value != [];
    }
  }

  /** `document_id` takes no part in validation: it is passed through. */
  lemma ValidationIgnoresDocumentId(req: QueryRequest, other: Option<string>)
    ensures ValidateQueryRequest(req.(documentId := other)).Ok? == ValidateQueryRequest(req).Ok?
    ensures ValidateQueryRequest(req).Ok? ==>
              ValidateQueryRequest(req.(documentId := other)).value
              == ValidateQueryRequest(req).value.(documentId := other)
  {
    assert FieldErrors(req.(documentId := other)) == FieldErrors(req);
  }

  /** The field-level checks are asymmetric: a whitespace-only `question`
      passes where the same `query` is rejected. */
  lemma BlankQuestionAccepted(ws: string)
    requires 0 < |ws| <= QuestionMaxLength && IsBlank(ws)
    ensures ValidateQueryRequest(QueryRequest(None, Some(ws), None, None)) == Ok(ValidQuery(ws, None, None))
    ensures ValidateQueryRequest(QueryRequest(Some(ws), None, None, None)) == Err([QueryEmpty])
  {
    var req := QueryRequest(Some(ws), None, None, None);
    assert ValidateQueryField(ws).Err?;
    assert FieldErrors(req) == [QueryEmpty];
    assert ValidateQueryRequest(req) == Err([QueryEmpty]);
  }
}
