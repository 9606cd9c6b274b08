/** The canonical document every connector produces, and the errors a sync can
    end with. */
module Documents {
  import opened Wrappers

  datatype DocumentSource = Jira | SalesforceKnowledge

  /** One `(link, text)` section of a document. */
  datatype Section = Section(link: string, text: string)

  /** A person credited with a document; a value with both parts absent is never built. */
  datatype ExpertInfo = ExpertInfo(displayName: Option<string>, email: Option<string>)

  datatype MetaValue = MetaText(text: string) | MetaList(items: seq<string>)

  /** `updatedAt` holds the source's timestamp text; its conversion to UTC is a
      date-library call outside this model. */
  datatype Document = Document(
    id: string,
    sections: seq<Section>,
    source: DocumentSource,
    semanticIdentifier: string,
    title: Option<string>,
    updatedAt: Option<string>,
    primaryOwners: Option<set<ExpertInfo>>,
    metadata: map<string, MetaValue>)

  /** Why a sync stopped early. Python exception classes are grouped by cause. */
  datatype SyncError =
    | MissingCredential(source: string)   // ConnectorMissingCredentialError
    | MissingKey(key: string)             // KeyError
    | MissingAttribute(name: string)      // AttributeError
    | WrongType(detail: string)           // TypeError and validation errors
    | UnexpectedItem                      // a search result that is not an Issue
    | UnboundLocal(name: string)          // UnboundLocalError
    | Undrained                           // the remote still had a continuation
    | AuthenticationFailed                // the token endpoint refused the credentials
}
