/** Result and error values shared by the whole model. The original code
    signals failure by returning an exception object (or null for "not found");
    here the two are kept apart as `Option` and `Result`. */
module Results {

  datatype Option<T> = None | Some(value: T)

  datatype Result<T> = Ok(value: T) | Err(error: Error)

  /** The failures the list extension can report. Each one stands for an
      exception the original code returns or lets escape. */
  datatype Error =
    | WebNotDefined                          // "SPWeb not defined"
    | NamesNotDefined                        // "Display name or internal name not defined"
    | ListNotFound                           // "List with name ... NOT exist"
    | DisplayNameExists(name: string)        // "List with name ... exist"
    | InternalNameExists(name: string)       // "List with internal name ... exist"
    | FieldNotFound(name: string)            // "Field with name ... NOT exist"
    | InvalidAttributeName(key: string)      // the XML attribute constructor refuses the key
    | MalformedFieldXml                      // the host cannot read the field XML
    | DuplicateField(name: string)           // the host already has a field with that static name
    | NullDisplayName(member: string)        // dereferencing an absent display name
    | ContentTypeIdNotSet
    | ContentTypeNotFound(id: string)
    | TemplateExists(fileName: string)       // the host refuses to overwrite a template file
}
