/** The dictionary-shaped records passed between the pipeline stages. */
module Records {
  import opened Wrappers
  import opened Text

  /** A metadata value: the code stores strings and ints (`page`, `chunk_id`). */
  datatype MetaValue = MStr(s: string) | MInt(i: int)

  type Metadata = map<string, MetaValue>

  /** `str(v)`. */
  function Render(v: MetaValue): string {
    match v
    case MStr(s) => s
    case MInt(i) => IntToString(i)
  }

  /** Python truthiness of a metadata value. */
  predicate Truthy(v: MetaValue) {
    match v
    case MStr(s) => s != ""
    case MInt(i) => i != 0
  }

  /** A chunk dict `{'text': ..., 'metadata': ...}`, or a LangChain `Document`
      (`page_content`, `metadata`): the two carry the same information. */
  datatype Doc = Doc(text: string, metadata: Metadata)

  /** A dict handed to a stage that first checks that both keys are present. */
  datatype RawDoc = RawDoc(text: Option<string>, metadata: Option<Metadata>)

  function ToRaw(d: Doc): RawDoc {
    RawDoc(Some(d.text), Some(d.metadata))
  }

  /** The records as dicts handed to the next stage. */
  function ToRaws(docs: seq<Doc>): (r: seq<RawDoc>)
    ensures |r| == |docs|
    ensures forall k :: 0 <= k < |docs| ==> r[k] == ToRaw(docs[k])
  {
    seq(|docs|, k requires 0 <= k < |docs| => ToRaw(docs[k]))
  }

  /** An entry of the `documents` configuration list, `{"path": ..., "enabled": ...}`, with the
      default `enabled = True` already applied. */
  datatype DocEntry = DocEntry(path: string, enabled: bool)

  function Texts(docs: seq<Doc>): (r: seq<string>)
    ensures |r| == |docs|
    ensures forall i :: 0 <= i < |docs| ==> r[i] == docs[i].text
  {
    seq(|docs|, i requires 0 <= i < |docs| => docs[i].text)
  }
}
