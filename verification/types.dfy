/**
 The vocabulary shared by the node-coordination model: units, peers, pending
 calls, the eight wire messages and the effects a transition asks the
 runtime to perform.
 */
module UnionTypes {

  type UnitId = string
  type Address = string
  type Method = string

  /** A listening port as carried by REGISTER_RESPONSE (an unsigned 16-bit value). */
  type Port = p: int | 0 <= p < 0x1_0000

  /** A correlation index; the wire field is a signed 64-bit integer. */
  type Index = i: int | -0x8000_0000_0000_0000 <= i < 0x8000_0000_0000_0000

  /** The invocable object of a unit; it is reached only through the dynamic-call adapter. */
  type Callee(==)

  /** An RPC argument or result, opaque to the protocol. */
  type Value(==)

  /** The completion callback of a pending call, opaque to the protocol. */
  type Callback(==)

  /** `None` stands for Go's nil result. */
  datatype Option<+T> = None | Some(value: T)

  /** A local unit: its id, the ids it depends on, and its invocable object. */
  datatype Unit = Unit(id: UnitId, depends: seq<UnitId>, callee: Callee)

  /** A connection to another node; `addr` is what `RemoteAddr().String()` yields. */
  datatype Peer = Peer(conn: nat, addr: Address)

  /** A pending outbound call, keyed by its correlation index. */
  datatype Rpc = Rpc(index: Index, unitId: UnitId, methodName: Method, callback: Callback)

  /** The envelope catalog: one constructor per message kind. */
  datatype Message =
    | Error
    | RegisterRequest(units: seq<UnitId>)
    | RegisterResponse(port: Port)
    | ImportRequest(dependencies: seq<UnitId>)
    | ImportResponse(unions: seq<Address>)
    | QueryResponse(unionAddr: Address)
    | RpcRequest(index: Index, unitId: UnitId, methodName: Method, args: seq<Value>, withResult: bool)
    | RpcResponse(index: Index, unitId: UnitId, methodName: Method, result: Option<Value>)

  /** What a transition asks the runtime to do; sockets, hooks and calls happen outside the model. */
  datatype Effect =
    | Dial(addr: Address)
    | Listen(port: Port)
    | Send(to: Peer, msg: Message)
    | InitAll
    | StartAll
    /** `withResult` selects the adapter's call-with-result entry point over the fire-and-forget one. */
    | Call(unitId: UnitId, methodName: Method, args: seq<Value>, withResult: bool)
    | Notify(callback: Callback, result: Option<Value>)
}
