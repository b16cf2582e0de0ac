/**
 * The LangChain `Document` the pipeline passes between stages: a text and a
 * metadata dictionary. Metadata values are the strings and integers the
 * pipeline writes (`source`, `hash`, `page`, `row`, `_chunk`, ...).
 */
module Documents {

  datatype Value = Str(s: string) | Int(i: int)

  type Metadata = map<string, Value>

  datatype Document = Document(pageContent: string, metadata: Metadata)
}
