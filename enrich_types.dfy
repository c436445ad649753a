/**
 * The records of internal/enrich/types.go: one enrichment record per
 * symbol and agent profile, with the input sent to the agent and the
 * output it returned, and the work items the enrich command iterates over.
 */
module EnrichTypes {
  import opened Wrappers
  import opened ParserTypes
  import State
  import GraphEdges

  const ScopeTarget: string := "target"
  const OutputFile: string := "enrich.jsonl"

  datatype SymbolMetadata = SymbolMetadata(
    ID: string,
    Name: string,
    Kind: string,
    Signature: string,
    Path: string,
    Language: string,
    Line: int)

  datatype SourceSpan = SourceSpan(StartLine: int, EndLine: int, Body: string)

  datatype InputPayload = InputPayload(
    Symbol: SymbolMetadata,
    Source: SourceSpan,
    Imports: seq<string>,
    Calls: seq<string>,
    CalledBy: seq<string>)

  datatype Output = Output(Summary: string, Purpose: string, SideEffects: string, Confidence: string)

  datatype Record = Record(
    SymbolID: string,
    Agent: string,
    AgentProfile: string,
    Model: string,
    PromptVersion: string,
    CacheKey: string,
    Scope: string,
    FileHash: string,
    Input: InputPayload,
    Output: Output,
    Status: string,
    Error: string,
    GeneratedAt: string,
    UpdatedAt: string)

  /** A symbol to enrich; a nil graph node is None. */
  datatype WorkItem = WorkItem(
    File: string,
    FileState: State.FileState,
    Symbol: Symbol,
    Node: Option<GraphEdges.Node<string>>)
}
