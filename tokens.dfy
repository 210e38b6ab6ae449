/**
 * markdown-it's token, reduced to the four fields the previewer reads or
 * writes. The tokenizer emits a flat sequence of them; `nesting` is +1 for an
 * opening token, 0 for a self-contained one and -1 for a closing one.
 */
module Tokens {
  datatype Token = Token(tokenType: string, nesting: int, content: string, info: string)

  const ParagraphOpen: string := "paragraph_open"
  const ParagraphClose: string := "paragraph_close"
  const Inline: string := "inline"
  const HtmlBlock: string := "html_block"
}
