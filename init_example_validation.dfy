/**
 * The request schemas of the InitExample service. A request arrives as JSON; each field is None
 * when it is missing or of the wrong JSON type, and Some of its value otherwise. A description
 * may be JSON null, so its value is itself an Option. The id parameter is the number the schema's
 * coercion produced from the route parameter, None when that coercion gives NaN.
 */
module InitExampleValidation {
  import opened Wrappers
  import opened InitExampleDefaults

  datatype Metadata = Metadata(category: string, priority: Priority)

  /** A `metadata` object as it arrives: `priority` is the raw string. */
  datatype MetadataInput = MetadataInput(category: Option<string>, priority: Option<string>)

  /** A create request body as it arrives; `metadata` is None when the key is absent. */
  datatype CreateInput = CreateInput(name: Option<string>, description: Option<Option<string>>, metadata: Option<MetadataInput>)

  /** An update request body as it arrives. */
  datatype UpdateInput = UpdateInput(name: Option<string>, description: Option<Option<string>>, active: Option<bool>, metadata: Option<MetadataInput>)

  datatype CreateRequest = CreateRequest(name: string, description: Option<string>, metadata: Option<Metadata>)

  datatype UpdateRequest = UpdateRequest(name: string, description: Option<string>, active: bool, metadata: Option<Metadata>)

  /** `metadataSchema`. */
  function ParseMetadata(m: MetadataInput): (r: Option<Metadata>)
    ensures r.Some? <==> (m.category.Some? && CategoryMinLength <= |m.category.value| <= CategoryMaxLength
      && m.priority.Some? && PriorityNamed(m.priority.value).Some?)
    ensures r.Some? ==> r.value.category == m.category.value && r.value.priority.Name() == m.priority.value
  {
    if m.category.Some? && CategoryMinLength <= |m.category.value| <= CategoryMaxLength && m.priority.Some? then
      match PriorityNamed(m.priority.value)
      case Some(p) => Some(Metadata(m.category.value, p))
      case None => None
    else None
  }

  /** `name`: a string of 1 to 200 characters. */
  predicate NameAccepted(name: Option<string>) {
    name.Some? && NameMinLength <= |name.value| <= NameMaxLength
  }

  /** `description`: null or a string of at most 500 characters. */
  predicate DescriptionAccepted(description: Option<Option<string>>) {
    description.Some? && (description.value.Some? ==> |description.value.value| <= DescriptionMaxLength)
  }

  /** `metadata`: absent, or an object `metadataSchema` accepts. */
  function OptionalMetadata(metadata: Option<MetadataInput>): Option<Option<Metadata>> {
    match metadata
    case None => Some(None)
    case Some(m) => if ParseMetadata(m).Some? then Some(ParseMetadata(m)) else None
  }

  /** `createSchema.safeParse`. */
  function ParseCreate(body: CreateInput): (r: Option<CreateRequest>)
    ensures r.Some? <==> (NameAccepted(body.name) && DescriptionAccepted(body.description)
      && (body.metadata.Some? ==> ParseMetadata(body.metadata.value).Some?))
    ensures r.Some? ==> (r.value.name == body.name.value && r.value.description == body.description.value
      && (r.value.metadata.None? <==> body.metadata.None?)
      && (body.metadata.Some? ==> r.value.metadata == ParseMetadata(body.metadata.value)))
  {
    if NameAccepted(body.name) && DescriptionAccepted(body.description) && OptionalMetadata(body.metadata).Some? then
      Some(CreateRequest(body.name.value, body.description.value, OptionalMetadata(body.metadata).value))
    else None
  }

  /** `updateSchema.safeParse`: the create rules plus a boolean `active`. */
  function ParseUpdate(body: UpdateInput): (r: Option<UpdateRequest>)
    ensures r.Some? <==> (NameAccepted(body.name) && DescriptionAccepted(body.description) && body.active.Some?
      && (body.metadata.Some? ==> ParseMetadata(body.metadata.value).Some?))
    ensures r.Some? ==> (r.value.name == body.name.value && r.value.description == body.description.value
      && r.value.active == body.active.value
      && (r.value.metadata.None? <==> body.metadata.None?)
      && (body.metadata.Some? ==> r.value.metadata == ParseMetadata(body.metadata.value)))
  {
    if NameAccepted(body.name) && DescriptionAccepted(body.description) && body.active.Some?
      && OptionalMetadata(body.metadata).Some?
    then
      Some(UpdateRequest(body.name.value, body.description.value, body.active.value, OptionalMetadata(body.metadata).value))
    else None
  }

  /** `paramsSchema.safeParse`: the coerced number must be a positive whole number. */
  function ParseId(id: Option<real>): (r: Option<nat>)
    ensures r.Some? <==> id.Some? && id.value.Floor as real == id.value && id.value > 0.0
    ensures r.Some? ==> r.value as real == id.value && r.value >= 1
  {
    if id.Some? && id.value.Floor as real == id.value && id.value > 0.0 then Some(id.value.Floor as nat) else None
  }

  /** Create and update agree on the fields they share: one is accepted on them exactly when the other is. */
  lemma CreateUpdateAgree(name: Option<string>, description: Option<Option<string>>, metadata: Option<MetadataInput>)
    ensures ParseCreate(CreateInput(name, description, metadata)).Some?
      <==> ParseUpdate(UpdateInput(name, description, Some(true), metadata)).Some?
    ensures ParseUpdate(UpdateInput(name, description, None, metadata)).None?
  {
  }

  /** An empty name, a zero id and a fractional id are refused; a null description is accepted. */
  lemma BoundaryInputs()
    ensures ParseCreate(CreateInput(Some(""), Some(None), None)).None?
    ensures ParseCreate(CreateInput(Some("A"), Some(None), None)) == Some(CreateRequest("A", None, None))
    ensures ParseId(Some(0.0)).None? && ParseId(Some(1.5)).None? && ParseId(Some(7.0)) == Some(7)
    ensures ParseMetadata(MetadataInput(Some("general"), Some("urgent"))).None?
  {
    assert (1.5).Floor == 1;
    assert (7.0).Floor == 7;
  }
}
