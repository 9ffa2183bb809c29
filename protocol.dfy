/** The request/reply protocol shared by the manager and its workers:
    message codes, the message record and the page arithmetic. */
module Protocol {

  datatype Option<T> = None | Some(value: T)

  const MSG_READ: int := 1
  const MSG_WRITE: int := 2
  const MSG_BLOCKED: int := 3
  const MSG_GRANTED: int := 4

  /** Address units per page. */
  const PAGE_SIZE: int := 1024

  /** A message on the queue; `mtype` is the tag receivers filter on. */
  datatype Message = Message(mtype: int, msgCode: int, memoryAddress: int, sender: int)

  /** `memoryAddress / 1024` with C's integer division, which truncates toward zero. */
  function PageOf(address: int): (page: int)
    ensures 0 <= address ==> 0 <= page && page * PAGE_SIZE <= address < page * PAGE_SIZE + PAGE_SIZE
    ensures address < 0 ==> page <= 0 && page * PAGE_SIZE - PAGE_SIZE < address <= page * PAGE_SIZE
  {
    if address >= 0 then address / PAGE_SIZE else -((-address) / PAGE_SIZE)
  }

  /** A reply the manager may give one request: GRANTED alone on a hit, or
      BLOCKED followed by GRANTED on a miss, every message addressed to `to`. */
  predicate WellFormedReply(r: seq<Message>, to: int)
  {
    && ((|r| == 1 && r[0].msgCode == MSG_GRANTED) ||
        (|r| == 2 && r[0].msgCode == MSG_BLOCKED && r[1].msgCode == MSG_GRANTED))
    && forall i :: 0 <= i < |r| ==> r[i].mtype == to
  }

  /** The replies to successive requests, one after the other. */
  function Flatten(rs: seq<seq<Message>>): seq<Message>
  {
    if rs == [] then [] else rs[0] + Flatten(rs[1..])
  }
}
