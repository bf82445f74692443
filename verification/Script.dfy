/** Compiled scripts: the list of commands that `fcomp` leaves, with addresses and branch targets resolved. */
module Script {
  import opened Options
  import opened Bytes
  import opened MatchSpec
  import opened MatchFacts
  import opened Substitution

  datatype Address = Last | Line(number: nat) | Matching(e: Expr)

  datatype Command =
    | Append(text: seq<byte>)
    | Change(text: seq<byte>)
    | Delete
    | DeleteFirst
    | Number
    | Get
    | GetAppend
    | Hold
    | HoldAppend
    | Insert(text: seq<byte>)
    | Branch
    | List
    | Next
    | NextAppend
    | Print
    | PrintFirst
    | Quit
    | Subst(e: Expr, rhs: seq<byte>, gfl: nat, pfl: nat)
    | Test
    | Translate(table: seq<byte>)

  /** `sed_reptr_t`: its next command is the one behind it in the list, its lb1 the position of another one. */
  datatype Node = Node(ad1: Option<Address>, ad2: Option<Address>, negfl: bool, command: Command, lb1: Option<nat>)

  /** The list ends in a node without a command, at position |nodes|. */
  datatype Script = Script(nodes: seq<Node>, nflag: bool)

  ghost predicate ValidAddress(a: Address) {
    a.Matching? ==> ValidExpr(a.e)
  }

  ghost predicate ValidCommand(c: Command) {
    match c
    case Append(t) => NulFree(t)
    case Change(t) => NulFree(t)
    case Insert(t) => NulFree(t)
    case Subst(e, rhs, gfl, _) =>
      ValidExpr(e) && ValidTemplate(rhs, Groups(e.prog)) && (gfl == 0 || e.circf || Consumes(e.prog))
    case Translate(t) => |t| == 256 && forall b :: 0 < b < 256 ==> t[b] != 0
    case _ => true
  }

  ghost predicate ValidNode(n: Node, size: nat) {
    && (n.ad1.Some? ==> ValidAddress(n.ad1.value))
    && (n.ad2.Some? ==> n.ad1.Some? && ValidAddress(n.ad2.value))
    && ValidCommand(n.command)
    && (n.lb1.Some? ==> n.lb1.value <= size)
    && (n.command.DeleteFirst? ==> n.lb1 == Some(0))
  }

  ghost predicate ValidScript(sc: Script) {
    forall k :: 0 <= k < |sc.nodes| ==> ValidNode(sc.nodes[k], |sc.nodes|)
  }
}
