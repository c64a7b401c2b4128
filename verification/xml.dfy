/**
 The part of a DOM document the report builds: elements with attributes in
 the order they were set, text content and child elements. Serialisation and
 escaping belong to PHP's DOM extension and are not modelled.
 */
module Xml {

  /**
   An attribute value as it is handed to the DOM: text, an integer (written
   in decimal), or a duration in seconds (written rounded to four decimals).
   */
  datatype Value = Text(text: string) | Number(number: nat) | Seconds(seconds: real)

  datatype Attribute = Attribute(name: string, value: Value)

  datatype Element = Element(name: string, attributes: seq<Attribute>, text: string, children: seq<Element>)
}
