/** The node data model of the interpreter: a node's two registers and its
    instruction list. */
module Tis100 {
  import opened RustStd

  /** The registers of a node, both unsigned 32-bit; the type keeps them in
      `[0, 2^32 - 1]`. */
  datatype NodeState = NodeState(acc: U32, bak: U32)

  /** The only instructions the interpreter has. */
  datatype Instruction = Add(amount: U32) | Sub(amount: U32) | Nop

  datatype Node = Node(state: NodeState, instructions: seq<Instruction>)

  /** `NodeState::new`: both registers start at zero. */
  function NewNodeState(): (s: NodeState)
    ensures s.acc == 0 && s.bak == 0
  {
    NodeState(0, 0)
  }

  /** `Node::new`: the initial registers and no program. */
  function NewNode(): (n: Node)
    ensures n.state.acc == 0 && n.state.bak == 0
    ensures n.instructions == []
  {
    Node(NewNodeState(), [])
  }

  /** `sample_code`: two nodes, the first with two instructions on one line. */
  function SampleCode(): string {
    "@0 ADD4ADD2\n\n@1 ADD1\n"
  }
}
