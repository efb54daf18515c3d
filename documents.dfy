/** The LangChain `Document` record shared by ingestion and retrieval: a text
    body and a metadata dictionary. The application only stores strings
    (`source`) and integers (`page`) in it. */
module Documents {

  datatype MetaValue = IntValue(i: int) | TextValue(s: string)

  type Metadata = map<string, MetaValue>

  datatype Document = Document(pageContent: string, metadata: Metadata)
}
