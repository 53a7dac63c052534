/**
 * The chat template section that every generated configuration ends
 * with, and the facts about its characters that the rewriting proofs rely
 * on.
 */
module ConfigTemplate {
  /** The keys that open the chat template section. */
  const TemplateHeader: seq<string> := ["template:", "  chat:", "    template: |"]

  /** The block scalar under `template: |` is indented by six spaces. */
  const ChatIndent: string := "      "

  /**
   * The Go template of the chat prompt, one line each without its
   * indentation, as the f-string renders it (each `{{{{` of the source
   * becomes `{{`).
   */
  const ChatTemplate: seq<string> := [
    "<s>{{- if .System }}",
    "{{.System}}",
    "{{- end }}",
    RangeAction,
    "{{- if eq $message.Role \"user\" }}",
    "[INST] {{ $message.Content }} [/INST]",
    "{{- else if eq $message.Role \"assistant\" }}",
    "{{ $message.Content }}",
    "{{- end }}",
    "{{- end }}"
  ]

  /**
   * The line of the chat template that holds a `:`, which is
   * `{{- range $i, $message := .Messages }}`. It is written in three pieces
   * around its only `n` so that the proof that no `name: ` starts inside it
   * can treat the part after the `n` on its own (`RangeTailFacts`).
   */
  const RangeAction: string := "{{- ra" + "n" + "ge $i, $message := .Messages }}"

  function Indented(ls: seq<string>): (r: seq<string>)
    ensures |r| == |ls|
    ensures forall k | 0 <= k < |ls| :: r[k] == ChatIndent + ls[k]
  {
    seq(|ls|, k requires 0 <= k < |ls| => ChatIndent + ls[k])
  }

  /** The template section of the file. */
  const TemplateLines: seq<string> := TemplateHeader + Indented(ChatTemplate)

  // Facts about the template text, one line at a time (each line's
  // characters are checked on their own, which keeps every proof small).

  lemma HeaderLineFacts()
    ensures forall l | l in TemplateHeader :: '\n' !in l && 'n' !in l && 'x' !in l
  {
  }

  lemma IndentFacts()
    ensures ChatIndent == "      "
    ensures forall c | c in ChatIndent :: c == ' '
  {
  }

  lemma IfSystemLineFacts() ensures '\n' !in "<s>{{- if .System }}" && ':' !in "<s>{{- if .System }}" {}
  lemma SystemLineFacts() ensures '\n' !in "{{.System}}" && ':' !in "{{.System}}" {}
  lemma EndLineFacts() ensures '\n' !in "{{- end }}" && ':' !in "{{- end }}" {}
  lemma RangeLineNewline() ensures '\n' !in RangeAction {}
  lemma RangeLineNoX() ensures 'x' !in RangeAction {}
  lemma IfUserLineFacts()
    ensures '\n' !in "{{- if eq $message.Role \"user\" }}" && ':' !in "{{- if eq $message.Role \"user\" }}"
  {
  }
  lemma InstLineNewline() ensures '\n' !in "[INST] {{ $message.Content }} [/INST]" {}
  lemma InstLineNoColon() ensures ':' !in "[INST] {{ $message.Content }} [/INST]" {}
  lemma ElseIfAssistantLineNewline() ensures '\n' !in "{{- else if eq $message.Role \"assistant\" }}" {}
  lemma ElseIfAssistantLineNoColon() ensures ':' !in "{{- else if eq $message.Role \"assistant\" }}" {}
  lemma ContentLineFacts() ensures '\n' !in "{{ $message.Content }}" && ':' !in "{{ $message.Content }}" {}

  lemma RangeTailFacts()
    ensures 'n' !in "ge $i, $message := .Messages }}"
  {
  }

  /**
   * No line of the chat template holds a newline, and every line but the
   * `range` one is free of `:`, which every field line carries.
   */
  lemma ChatTemplateFacts()
    ensures forall b | b in ChatTemplate :: '\n' !in b && (b == RangeAction || ':' !in b)
    ensures 'x' !in RangeAction
  {
    IfSystemLineFacts();
    SystemLineFacts();
    EndLineFacts();
    RangeLineNewline();
    RangeLineNoX();
    IfUserLineFacts();
    InstLineNewline();
    InstLineNoColon();
    ElseIfAssistantLineNewline();
    ElseIfAssistantLineNoColon();
    ContentLineFacts();
  }

  /** No template line holds a newline. */
  lemma TemplateLinesSingle()
    ensures forall l | l in TemplateLines :: '\n' !in l
  {
    HeaderLineFacts();
    IndentFacts();
    ChatTemplateFacts();
    forall l | l in TemplateLines ensures '\n' !in l {
      if l !in TemplateHeader {
        var k :| 0 <= k < |ChatTemplate| && l == ChatIndent + ChatTemplate[k];
        assert ChatTemplate[k] in ChatTemplate;
      }
    }
  }
}
