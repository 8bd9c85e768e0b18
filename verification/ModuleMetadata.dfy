// module.prop: its fields and the identity every release step reads from it.
module ModuleMetadata {
  import opened Results
  import opened Decimal
  import opened Properties
  import Version

  datatype MetadataError = BadFields(error: PropertyError) | MissingKey | WrongModuleId | BadVersion | BadVersionCode

  predicate Complete(fields: Fields) {
    && "id" in fields && "name" in fields && "version" in fields && "versionCode" in fields
    && "author" in fields && "description" in fields && "updateJson" in fields
  }

  function Checked(fields: Fields): Result<Fields, MetadataError> {
    if !Complete(fields) then Err(MissingKey)
    else if fields["id"] != "otast" then Err(WrongModuleId)
    else if !Version.Valid(fields["version"]) then Err(BadVersion)
    else if !PositiveDigits(fields["versionCode"]) then Err(BadVersionCode)
    else Ok(fields)
  }

  function Metadata(text: string): (r: Result<Fields, MetadataError>)
    ensures r.Ok? ==> Complete(r.value) && Version.Valid(r.value["version"]) && PositiveDigits(r.value["versionCode"])
  {
    var fields := ParsedFields(text);
    if fields.Err? then Err(BadFields(fields.error)) else Checked(fields.value)
  }

  // module.prop is accepted exactly if seven fields are among those it has, with the module's own
  // ID, a valid version and a positive code in digits; and nothing in it is changed.
  lemma MetadataExact(text: string)
    ensures Metadata(text).Ok? <==> ParsedFields(text).Ok? && Describes(ParsedFields(text).value)
    ensures Metadata(text).Ok? ==> Metadata(text).value == ParsedFields(text).value
  {
    hide ParsedFields, Version.Valid, FromDecimal, IsDigits;
  }

  // All seven keys are there, the module is OTAST, and version and code are sound.
  predicate Describes(fields: Fields) {
    && "id" in fields && "name" in fields && "version" in fields && "versionCode" in fields && "author" in fields
    && "description" in fields && "updateJson" in fields
    && fields["id"] == "otast" && Version.Valid(fields["version"])
    && IsDigits(fields["versionCode"]) && FromDecimal(fields["versionCode"]) > 0
  }
}
