/** The records the client and the API exchange: the TypeScript models of the app and the pydantic classes of the API. */
module Models {
  import opened Wrappers

  /** One locale's translation of a key. Timestamps stay opaque strings. */
  datatype TranslationValue = TranslationValue(value: string, updatedAt: string, updatedBy: string)

  /** A translation key as the page hands it to the table: every locale the server sent. */
  datatype TranslationKey = TranslationKey(
    id: string,
    key: string,
    category: string,
    description: Option<string>,
    translations: map<string, TranslationValue>)

  /** The value stored under a key in the `localizations` object of a fetch response. */
  datatype LocalizationEntry = LocalizationEntry(
    id: string,
    category: string,
    description: Option<string>,
    translations: map<string, TranslationValue>)

  /** The body of `GET /localizations/{project_id}/{locale}`. */
  datatype LocalizationResponse = LocalizationResponse(
    projectId: string,
    locale: string,
    localizations: map<string, LocalizationEntry>)

  /** What the client sends for one key: the new text and who changed it. */
  datatype TranslationUpdate = TranslationUpdate(value: string, updatedBy: string)

  /** `UpdateLocalizationsPayload`: the updates, keyed by localization key. */
  datatype UpdatePayload = UpdatePayload(localizations: map<string, TranslationUpdate>)

  /** The body of a successful `POST /localizations/{project_id}/{locale}`. */
  datatype UpdateAck = UpdateAck(message: string, updatedCount: nat)
}
