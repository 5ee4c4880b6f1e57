/** The values the engine hands out and stores per document. */
module Documents {

  /** The four states a document can be in. The engine only ever compares
      statuses for equality, and uses Actual as the default filter. */
  datatype DocumentStatus = Actual | Irrelevant | Banned | Removed

  /** One ranked search result. */
  datatype Document = Document(id: int, relevance: real, rating: int)

  /** What the store keeps per document beside its words. */
  datatype DocumentData = DocumentData(rating: int, status: DocumentStatus)
}
