# SPListExtention: list schema reconciliation

`SPListExtention<T>` keeps a list on a site in step with a class whose
properties declare the list's fields. Each property that has a field type
becomes a field. Its static name is the property name. Its XML
(`<Field DisplayName='…' StaticName='…' Name='…' ID='{…}' Type='…' …>…</Field>`)
carries the declared display name, type, extra attributes, the `Required`
flag and inner XML.

The code does four things:

- **Create.** It makes the list, refusing a taken title or root folder
  name. It then creates every declared field, or binds the declared
  content type instead.
- **Update.** For a list without a content type, it re-applies
  `DisplayName`, `Type` and the extra attributes to the custom fields
  that already exist, and creates the missing ones. When asked, it
  deletes the custom fields that are no longer declared. For a list with
  a content type, it re-links the list content type to the site content
  type's fields, then drops the stale links and, when asked, their fields.
- **Look up.** It finds the list by root folder name or title, and lists
  its custom fields: those that are neither built in nor platform-sourced.
- **Save.** It saves the list as a template whose file name is the
  template name without spaces plus `.stp`.

## How the model is built

- **The site.** The host platform is the class `SiteModel.Site`. Its
  fields `lists`, `contentTypes` and `templates` change in place. A list
  (`ListInfo`) is a value. The host's own operations are pure functions
  on list values: adding a field from XML, writing a field's schema back,
  deleting a field, and binding a content type. The `Site` methods apply
  them in place. `Site.Valid()` says every list has unique static names.
  The constructor establishes it, and every `Site` method that changes
  lists keeps it. So does every `ListExtension` method that changes a
  list, except the steps of the update loops: `SyncExisting`,
  `UpdateMember`, `UpdateMembers`, `DeleteOrphans`, `RelinkFields`,
  `DropStaleLink` and `PruneLinks`. The methods that call those steps
  prove it from lemmas about their specification functions
  (`ReconcileKeepsAllUnique`, `SyncContentTypeKeepsAllUnique`).
- **The extension's entry points.** These are methods in
  `ListExtension` that take the site. Each method's `ensures` ties the new
  state of the site, and the returned error, to a specification function
  of the old state:
  - `CreateFields`, `Run` and `Reconcile` for fields;
  - `SyncContentType` and `BindContentType` for content types;
  - `AddListToWebResult` for creating a list.

  The loops carry invariants that say the list so far is that function
  applied to the members already seen.
- **Field XML.** The builder is modelled segment by segment.
  `FieldXml.ParseElement` is the host's reading of the XML: attributes in
  single quotes, duplicate names refused. The round-trip lemma
  `FieldXmlRoundTrip` connects the two.
- **The reconciliation.** Its closed form is `Reconcile.Final`. A
  consistent run leaves the existing fields updated in place, the new
  fields appended in declaration order, and, when asked, the orphans
  gone. The lemmas below prove the following:
  - which fields survive;
  - that every declared attribute holds afterwards;
  - that no orphan remains;
  - that a second run changes nothing.

## Model

| member | source | states |
|---|---|---|
| ListExtension.Create | SPExtention/SPExtention/SPListExtention.cs:102-115 | No site is an error. So is an empty display or internal name, and then no list changes. Otherwise the site's lists and the result are what adding the list to the site gives. |
| ListExtension.UpdateFields | SPExtention/SPExtention/SPListExtention.cs:117-126 | An empty name is an error. So is a list that cannot be found. Both leave the lists unchanged. Otherwise only the found list changes, and it becomes what updating its fields gives, with that error. |
| ListExtension.GetSPListByInternalName | SPExtention/SPExtention/SPListExtention.cs:128-136 | An empty internal name finds nothing. A hit is the first list whose root folder name equals the internal name. A miss means no list has that root folder name. |
| ListExtension.GetSPListByDisplayName | SPExtention/SPExtention/SPListExtention.cs:138-144 | An empty display name finds nothing. A hit has that title. A miss means no list has that title. |
| ListExtension.GetSPList | SPExtention/SPExtention/SPListExtention.cs:146-150 | No site finds nothing. A hit matches the internal name or the display name. The internal name wins whenever some list has it. A miss means no list matches either name. |
| ListExtension.TemplateFileName | SPExtention/SPExtention/SPListExtention.cs:158 | The file name is the template name with its spaces removed (`RemoveSpaces`), followed by `.stp`. So it ends in `.stp` and has no space before it. |
| ListExtension.TemplateFileNameCollides | SPExtention/SPExtention/SPListExtention.cs:158 | Two template names give the same file name exactly when they agree once spaces are removed. |
| Text.RemoveSpaces | SPExtention/SPExtention/SPListExtention.cs:158 | The result has no space. Every other character occurs as often as before. A string without spaces is returned unchanged. |
| Text.RemoveSpacesAppend | SPExtention/SPExtention/SPListExtention.cs:158 | Removing spaces from two strings joined is removing them from each and joining the results. So the characters left keep their order. |
| Text.RemoveSpacesChar | SPExtention/SPExtention/SPListExtention.cs:158 | A lone space is removed and any other character is kept. |
| ListExtension.SaveAsTemplate | SPExtention/SPExtention/SPListExtention.cs:152-169 | A list that cannot be found is an error, and no template is added. A file name already in the gallery is refused. Otherwise one template is appended, holding the list's id, the derived file name, the name, the description and the save-data flag. Lists and content types are unchanged. |
| SiteModel.Site.SaveAsTemplate | SPExtention/SPExtention/SPListExtention.cs:161 | The host refuses a file name already saved. Otherwise it appends the template. |
| ListExtension.GetCustomFields | SPExtention/SPExtention/SPListExtention.cs:171-174 | There is a result exactly when the list is found. It holds exactly the found list's custom fields. |
| CustomFields.CustomFieldNames | SPExtention/SPExtention/SPListExtention.cs:407-413 | A name is listed exactly when some field has it and is neither built in nor sourced from an `http://` schema. |
| CustomFields.CustomFieldList | SPExtention/SPExtention/SPListExtention.cs:415-420 | A field is listed exactly when it is in the list and is custom. |
| CustomFields.CustomNamesAgree | SPExtention/SPExtention/SPListExtention.cs:407-420 | The custom names are the static names of the custom fields, in order. |
| CustomFields.CustomFieldNamesDistinct | SPExtention/SPExtention/SPListExtention.cs:407-413 | With unique static names in the list, no custom name is listed twice. |
| ListExtension.AddListToWebResult | SPExtention/SPExtention/SPListExtention.cs:189-208 | A taken title is refused first, then a taken root folder name. A refusal changes nothing. Otherwise exactly one list is appended, with the new id, root folder name and title, and the others are kept. On success the result is the new list's position. |
| ListExtension.AddListToWeb | SPExtention/SPExtention/SPListExtention.cs:189-208 | The site's lists and the result are exactly `AddListToWebResult` of the old state. Content types and templates are unchanged. A `Valid` site stays `Valid`. |
| SiteModel.Site.AddList | SPExtention/SPExtention/SPListExtention.cs:196 | Appends a generic list named after the internal name and returns its position. It keeps the site `Valid`. |
| SiteModel.Site.SetTitle | SPExtention/SPExtention/SPListExtention.cs:198 | Only that list's title changes. |
| ListExtension.AddedListIsFound | SPExtention/SPExtention/SPListExtention.cs:189-199 | After a successful add, both lookups find the new list. |
| ListExtension.SecondAddRefused | SPExtention/SPExtention/SPListExtention.cs:191-192 | Adding the same schema a second time is refused because the title exists, and it changes nothing. |
| ListExtension.AddFieldsToList | SPExtention/SPExtention/SPListExtention.cs:210-239 | The list becomes `CreateFields` of the old list. The returned error is that run's first error. A `Valid` site stays `Valid`. |
| ListExtension.AddMember | SPExtention/SPExtention/SPListExtention.cs:214-231 | A member without a field type is skipped. A typed member is created from its XML, and an error leaves the lists unchanged. |
| Reconcile.CreateFieldsIsRun | SPExtention/SPExtention/SPListExtention.cs:210-239 | Creating every member is the update run against a list with no existing custom fields. |
| Reconcile.CreateFieldsStops | SPExtention/SPExtention/SPListExtention.cs:235-238 | Once a creation fails, the later members change nothing. |
| ListExtension.AddFieldToList | SPExtention/SPExtention/SPListExtention.cs:241-259 | The list becomes what the host makes of the built XML. An XML error or a taken static name leaves the lists unchanged and is returned. On success the new static name is returned. |
| SiteModel.ListAddFieldAsXml | SPExtention/SPExtention/SPListExtention.cs:255 | Succeeds exactly when the XML reads, carries a `StaticName`, and that name is not yet in the list. The field read from the XML is then appended. Unique names stay unique. |
| SiteModel.Site.AddFieldAsXml | SPExtention/SPExtention/SPListExtention.cs:255 | Applies `ListAddFieldAsXml` to one list in place. On error nothing changes. |
| FieldXml.FieldXmlRoundTrip | SPExtention/SPExtention/SPListExtention.cs:241-254 | When no value holds a quote and every name is a valid attribute name, the built XML reads back as exactly these attributes: DisplayName (the declared one, or the internal name when none is declared), StaticName, Name, ID, Type, the extras, then `Required='TRUE'` when required. Its body is the inner XML. |
| Declarations.DeclXmlReadsBack | SPExtention/SPExtention/SPListExtention.cs:241-256 | A well-formed member's XML reads back with distinct attribute names, and its static name is the member name. |
| Reconcile.CreateFieldIs | SPExtention/SPExtention/SPListExtention.cs:243-258 | Creating a well-formed member fails exactly when its name is taken. Otherwise it appends exactly the field its declaration describes. |
| FieldXml.ParseAdditionalAttributes | SPExtention/SPExtention/SPListExtention.cs:261-270 | No attributes give the empty string. Otherwise the result is the `name ='value' ` segments concatenated in order. |
| ListExtension.UpdateListFields | SPExtention/SPExtention/SPListExtention.cs:272-278 | Without a content type id, the list is reconciled with its members. With one, it is synchronised with that content type. Only that list changes. |
| ListExtension.UpdateListInstanceFields | SPExtention/SPExtention/SPListExtention.cs:280-330 | The list becomes `Reconcile` of the old list. The returned error is the run's error. A `Valid` site stays `Valid`. Existing fields get the corrected update (see Left out and Findings). |
| ListExtension.UpdateMembers | SPExtention/SPExtention/SPListExtention.cs:286-318 | The list becomes `Run` of the old list over the members, and the first error is returned. A clean run collects exactly the typed members' names in order. Existing fields get the corrected update. |
| ListExtension.UpdateMember | SPExtention/SPExtention/SPListExtention.cs:288-317 | An untyped member is skipped. An existing member gets the corrected update. Any other member is created. An error leaves the lists unchanged. |
| ListExtension.SyncExisting | SPExtention/SPExtention/SPListExtention.cs:298-304 | The list becomes the display-name patch, then the type patch, then the extra-attribute patches, applied to the old list. The display name patched is the corrected one: the declared one, or the member name when none or an empty one is declared. |
| Reconcile.SyncFieldSteps | SPExtention/SPExtention/SPListExtention.cs:300-303 | Updating an existing field is those three patches applied one after the other, with the corrected display name (the one creation writes). |
| Declarations.SyncAttrsAgree | SPExtention/SPExtention/SPListExtention.cs:248-254 | Every attribute the update writes already has that value in the XML that creation builds, and the update's attribute names are distinct. |
| ListExtension.DeleteOrphans | SPExtention/SPExtention/SPListExtention.cs:322-323 | The list becomes what deleting the orphans one by one gives. The first failed delete is returned. |
| Reconcile.Orphans | SPExtention/SPExtention/SPListExtention.cs:322 | A name is an orphan exactly when it is an existing custom name that is not the name of a member with a field type. Distinct names stay distinct. |
| Reconcile.RunUnique | SPExtention/SPExtention/SPListExtention.cs:286-318 | An update run keeps the static names of the list unique. |
| Reconcile.ReconcileKeepsAllUnique | SPExtention/SPExtention/SPListExtention.cs:280-330 | Reconciling one list of a site whose lists all have unique static names keeps every list's names unique. |
| Deletion.DeleteAllUnique | SPExtention/SPExtention/SPListExtention.cs:322-323 | Deleting fields one after the other keeps the static names unique. |
| Reconcile.RunStops | SPExtention/SPExtention/SPListExtention.cs:286-329 | Once a member fails, the later members change nothing. |
| Reconcile.RunFailure | SPExtention/SPExtention/SPListExtention.cs:286-329 | The run fails exactly when some member to be created collides with a field already in the list. The run then stops at the first such member. It returns the closed form of the members before it, with a duplicate-field error. |
| Reconcile.RunClosedForm | SPExtention/SPExtention/SPListExtention.cs:286-318 | A collision-free run leaves each existing declared field patched in place, and the new fields appended in declaration order. |
| Reconcile.ClosedUnique | SPExtention/SPExtention/SPListExtention.cs:286-318 | A collision-free run keeps static names unique. |
| Reconcile.ReconcileClosedForm | SPExtention/SPExtention/SPListExtention.cs:280-330 | A consistent list reconciles without error to `Final`, whose static names are unique. |
| Reconcile.DeclaredField | SPExtention/SPExtention/SPListExtention.cs:294-317 | After reconciling, every typed member has a custom field of its name, and every attribute the member declares holds on it. A member that was not there before is exactly the field its declaration describes. |
| Reconcile.DeclaredAfter | SPExtention/SPExtention/SPListExtention.cs:294-317 | After reconciling, every typed member is a custom field, and every field of that name carries the declared attributes. |
| Reconcile.ForeignFieldKept | SPExtention/SPExtention/SPListExtention.cs:320-323 | A field that is not custom survives reconciliation unchanged, whether or not deletion was asked for. |
| Reconcile.OrphanGated | SPExtention/SPExtention/SPListExtention.cs:320-323 | An undeclared custom field survives unchanged without deletion. With deletion, no field of its name remains. |
| Reconcile.FinalOrigin | SPExtention/SPExtention/SPListExtention.cs:284-323 | Every field after reconciling is either an old field, possibly patched, or a newly created one. With deletion, every old custom field that remains is declared. |
| Reconcile.NoOrphansAfter | SPExtention/SPExtention/SPListExtention.cs:320-323 | After reconciling with deletion, no orphan is left. |
| Reconcile.ReconcileIdempotent | SPExtention/SPExtention/SPListExtention.cs:280-330 | The reconciled list is still consistent. Reconciling it again, with any GUIDs, changes nothing and reports no error. |
| Reconcile.AsWrittenUpdateFails | SPExtention/SPExtention/SPListExtention.cs:300 | A concrete list and a member "Price" with a type but no display name: the member is created, but the update as written fails on it, while the corrected update leaves the list unchanged. |
| Reconcile.UnnamedMemberAfterCreate | SPExtention/SPExtention/SPListExtention.cs:300 | For every consistent list and every typed member without a display name, the same holds: creation succeeds, the update as written fails with a null display name, and the corrected update changes nothing. |
| Reconcile.AsWrittenBlanksName | SPExtention/SPExtention/SPListExtention.cs:300 | A concrete list and a member "Price" of type Number that declares an empty display name. Creation gives the field the display name "Price". The update as written then sets it to "", while the corrected reconciliation changes nothing. |
| Reconcile.EmptyNameAfterCreate | SPExtention/SPExtention/SPListExtention.cs:300 | For every consistent list and every typed member that declares an empty display name, the same holds. Creation shows the member name, the update as written writes "", and the corrected reconciliation changes nothing. |
| ListExtension.UpdateContentTypeListFields | SPExtention/SPExtention/SPListExtention.cs:332-358 | The list becomes `SyncContentType` of the old list and the site's content types, and its error is returned. A `Valid` site stays `Valid`. |
| ListExtension.RelinkFields | SPExtention/SPExtention/SPListExtention.cs:339-345 | The list content type's links become `Relink` of the old links and the site content type's field names. |
| ContentTypeSync.RelinkIs | SPExtention/SPExtention/SPListExtention.cs:339-345 | Re-linking every field keeps the old links the site content type does not have, and puts its fields after them in its order. |
| ListExtension.PruneLinks | SPExtention/SPExtention/SPListExtention.cs:347-356 | The list becomes `Prune` of the old list over the links. The first failed field delete is returned. |
| ListExtension.DropStaleLink | SPExtention/SPExtention/SPListExtention.cs:350-355 | The stale link goes. When deletion is asked, so does the list field of that name, and a failed delete is returned. |
| ContentTypeSync.PruneIs | SPExtention/SPExtention/SPListExtention.cs:347-356 | Pruning removes exactly the links the site content type lacks. With deletion it also removes the list fields of those names. It reports no error when those fields exist. |
| ContentTypeSync.PruneUnique | SPExtention/SPExtention/SPListExtention.cs:347-356 | Dropping links, and deleting their fields, keeps the static names unique. |
| ContentTypeSync.SyncContentTypeKeepsAllUnique | SPExtention/SPExtention/SPListExtention.cs:332-358 | Synchronising one list of a site whose lists all have unique static names keeps every list's names unique. |
| ContentTypeSync.PruneStops | SPExtention/SPExtention/SPListExtention.cs:347-356 | Once a field delete fails, the later links change nothing. |
| ContentTypeSync.SyncContentTypeIs | SPExtention/SPExtention/SPListExtention.cs:332-358 | When both content types are found, synchronising leaves the list content type linking exactly the site content type's fields. With deletion, the stale fields are removed from the list. |
| ContentTypeSync.FindListContentType | SPExtention/SPExtention/SPListExtention.cs:335 | The list content type found is the first whose id starts with the given id. A miss means none does. |
| ListExtension.AddFieldAttributes | SPExtention/SPExtention/SPListExtention.cs:360-370 | A missing field is an error. Otherwise the attributes are applied in order, each invalid one skipped. Only that list changes. |
| FieldPatch.PatchEachIs | SPExtention/SPExtention/SPListExtention.cs:360-370 | Patching a run of attributes changes only the named field's schema. That schema becomes the attributes applied in order, with its body kept. |
| FieldPatch.PatchEachMissing | SPExtention/SPExtention/SPListExtention.cs:362-364 | Patching a field the list does not have changes nothing. |
| ListExtension.AddFieldAttribute | SPExtention/SPExtention/SPListExtention.cs:372-378 | A missing field is an error, and so is an invalid attribute name. The list becomes that single patch of the old list. |
| FieldPatch.PatchField | SPExtention/SPExtention/SPListExtention.cs:372-399 | Fails exactly when the field is missing or the key is invalid. On success only that field's schema changes: the key gets the value, and every other attribute is kept. |
| FieldSchema.PatchElement | SPExtention/SPExtention/SPListExtention.cs:380-399 | An invalid attribute name is an error. Otherwise the key reads back as the value, every other attribute is unchanged, and the body is kept. |
| FieldSchema.SetAttribute | SPExtention/SPExtention/SPListExtention.cs:384-390 | The key reads back as the value and every other key reads as before. An existing attribute is overwritten in place. A new one is appended last. Distinct names stay distinct. |
| FieldSchema.SetAttributeIdempotent | SPExtention/SPExtention/SPListExtention.cs:384-390 | Setting the same attribute twice is setting it once. |
| FieldSchema.ApplyAllIdempotent | SPExtention/SPExtention/SPListExtention.cs:365-368 | Applying a run of distinctly named attributes twice is applying it once. |
| FieldSchema.ApplyAllSets | SPExtention/SPExtention/SPListExtention.cs:365-368 | After a run of distinctly named patches, each valid one reads back as its value. |
| ListExtension.DeleteFields | SPExtention/SPExtention/SPListExtention.cs:401-405 | Only that list changes. It loses the field of that static name. A missing name is an error and changes nothing. |
| SiteModel.DeleteFieldRemoves | SPExtention/SPExtention/SPListExtention.cs:403 | Deleting an existing field from a list with unique names removes exactly that field and keeps the order of the rest. |
| Deletion.DeleteAllRemoves | SPExtention/SPExtention/SPListExtention.cs:322-323 | Deleting distinct existing names removes exactly the fields with those names, without error. |
| ListExtension.AddContentTypeToList | SPExtention/SPExtention/SPListExtention.cs:422-454 | The list becomes `BindContentType` of the old list, and any error leaves the lists unchanged. A `Valid` site stays `Valid`. |
| ContentTypeSync.BindContentType | SPExtention/SPExtention/SPListExtention.cs:422-437 | An empty id or an id unknown to the site is an error. Otherwise content types are enabled, no field is lost, and names stay unique. When the list already has a content type of that name, nothing else changes. Otherwise the list gains one content type, with the id extended by `00` and the suffix, that links the site content type's fields. The list then has a field of each of those names. |
| ContentTypeSync.BindThenSync | SPExtention/SPExtention/SPListExtention.cs:422-454 | A newly bound content type is the one the update path finds, and it links exactly the site content type's fields. The list has a field of each of those names. Synchronising right after binding changes nothing. |

## Where the code and its description differ

The model follows the code in each of these cases:

- **`Required` position.** The code appends `Required = 'TRUE'` after the
  extra attributes (line 246), so it is the last attribute.
- **No escaping.** Attribute values are put into the XML without
  escaping. A value holding a quote does not round-trip, so the
  round-trip lemmas require values without quotes. The model's reader
  of field XML is more lenient than a real XML reader: it accepts `<`
  and `&` in values and any text as the body. So `RunFailure`'s "fails
  exactly when a creation collides" holds for this lenient host only. A
  real host can also refuse a value or inner XML that is not well-formed
  XML.
- **Collisions.** A member whose name collides with a field that is not
  custom goes to creation, and the host refuses it. The run then stops
  with that error (line 308 inside the handler at 326-329). The
  collision is not routed to an update.
- **Deletion.** Orphan deletion deletes every undeclared custom field by
  static name. No field is protected from it. No lookup rewrite and no
  title hiding happen on this path.

## Left out

- XML escaping and the full XML grammar: the host's reading of a field's
  XML is modelled by a parser for the single-quoted shape the builder
  emits. Attribute names follow a simplified rule (`IsNameChar`), not the
  whole XML name production.
- `TryGetList` matches titles without regard to case; the model compares
  titles exactly.
- `IsContentTypeAllowed` (line 432) is not modelled: every site content
  type is taken to be allowed.
- Deleting the default Item content type (lines 438-444) is left out. The
  code catches any failure of it, and it does not touch fields or links.
- Adding the content type's fields to the default view (lines 446-452)
  is left out. It does not touch fields or links, but unlike the delete
  above it is not guarded, so a host failure there would escape as an
  exception. The model has no views and cannot fail at that step.
- Reflection over the type's properties (`PropertyFields`) and the
  attribute classes: the declared members are given as a sequence of
  `FieldDecl` values, in declaration order.
- `Guid.NewGuid()` and the new list's GUID are parameters (`guids`,
  `listId`, `suffix`).
- SiteModel.Site.AddFieldAsXml: the host's `AddFieldInternalNameHint`
  renaming is not modelled. A static name already in the list is refused
  instead, which keeps static names unique.
- SiteModel.Site.SaveAsTemplate: the gallery's rules are reduced to
  refusing a file name already saved.
- Field ids: fields are deleted and linked by static name, not by GUID.
- Iterating `listContentType.Fields` while deleting its links is modelled
  as a loop over a snapshot of the links taken after re-linking.
- `Update()` and `PushChangesToLists` calls are not modelled: they persist
  state, and the model's state is already current. One path differs.
  When the list already has a content type of that name, the code sets
  `ContentTypesEnabled` (line 431) and returns at lines 434-435 with no
  `Update()`, so the setting is not persisted. `BindContentType` records
  the list as enabled anyway.
- ListExtension.UpdateListFields: on the content-type path the code
  discards the result and returns null (lines 276-277). A failed field
  delete there escapes as an exception, which also skips `spList.Update()`
  at line 357. The model returns that failure as the call's error instead.
- ListExtension.UpdateContentTypeListFields: returns a failed field delete
  as an error value, where the code (line 354) lets it escape as an
  exception.
- ListExtension.SyncExisting: this, `UpdateMember`, `UpdateMembers`,
  `UpdateListInstanceFields`, `Reconcile.SyncField` and
  `Reconcile.SyncFieldSteps` model the corrected update of an existing
  field. The display name they write is the one creation writes: the
  member name when the declared one is absent or empty. The code as
  written (line 300) writes the declared one unchecked. It fails on an
  absent one and blanks the display name on an empty one. Both are
  recorded under Findings and modelled by `Reconcile.SyncFieldAsWritten`.
- ListExtension.UpdateListInstanceFields: see `ListExtension.SyncExisting`.
  On a member declaring an empty display name, the model keeps the member
  name where the code writes "".
- ListExtension.UpdateMembers: see `ListExtension.SyncExisting`.
- ListExtension.UpdateMember: see `ListExtension.SyncExisting`.
- Reconcile.SyncFieldSteps: see `ListExtension.SyncExisting`.
- Exception messages are reduced to the constructors of
  `Results.Error`.
- SPListWrapper, BaseListItem and the rest of the repository are not part
  of this model.

## Findings

| source | as written | input that shows it | evidently intended | confidence | as-written member | corrected member |
|---|---|---|---|---|---|---|
| SPExtention/SPExtention/SPListExtention.cs:300 | The update of an existing field reads `dispName.Name` without a null check. | A typed member "Price" with no `DisplayName` attribute: the first run creates it, and the next run dereferences null and stops with an error. | Fall back to the member name, as creation does at line 249. | not executed | Reconcile.AsWrittenUpdateFails | Reconcile.ReconcileIdempotent |
| SPExtention/SPExtention/SPListExtention.cs:300 | The update of an existing field writes the declared display name unchecked, so a declared empty one overwrites the display name with "". | A member "Price" of type Number with `DisplayName("")`: the first run creates the field with display name "Price" (line 249), and the next run sets it to "". | Treat an empty display name as absent, as creation does at line 249. | not executed | Reconcile.AsWrittenBlanksName | Reconcile.ReconcileIdempotent |
