/** The document every hash operation works on: ordered fields holding JSON values. */
module HashDoc {
  import opened OrderedFields
  import Decimal

  /** The names json_type() gives. */
  datatype Kind = Text | True | False | Null | Integer | Real | Array | Object

  type OtherKind = k: Kind | k != Integer witness Text

  /** One field's value: an integer, or the text that stands for the content of anything else. */
  datatype Value = Int(n: int) | Other(kind: OtherKind, text: string)

  type Pair = Field<string, Value>

  type Doc = seq<Pair>

  function KindOf(v: Value): Kind {
    match v
    case Int(_) => Integer
    case Other(kind, _) => kind
  }

  // ---- The text, for size_bytes ---------------------------------------------------------------

  function EscapedKey(key: string): string {
    if key == [] then ""
    else
      (if key[0] == '"' || key[0] == '\\' then ['\\', key[0]]
       else if key[0] in "\n\t\r" || key[0] as int == 8 || key[0] as int == 12 then ['\\', '?']
       else if key[0] < ' ' then "\\u00??"
       else [key[0]]) + EscapedKey(key[1..])
  }

  function ValueText(v: Value): string {
    match v
    case Int(n) => Decimal.Print(n)
    case Other(_, text) => text
  }

  /** Length in bytes of the compact document, keys and texts being UTF-8 byte strings. */
  function SizeOf(doc: Doc): nat {
    2 + FieldsSize(doc) + if doc == [] then 0 else |doc| - 1
  }

  function FieldsSize(doc: Doc): nat {
    if doc == [] then 0
    else 2 + |EscapedKey(doc[0].key)| + 1 + |ValueText(doc[0].value)| + FieldsSize(doc[1..])
  }
}
