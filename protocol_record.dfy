/** The protocol record every page shows and the body the `/api/protocols` route answers
    with. All display fields are pre-formatted strings. */
module ProtocolRecord {
  import opened Options

  datatype Protocol = Protocol(
    id: int,
    name: string,
    category: string,
    apy: string,
    tvl: string,
    input: string,
    output: string,
    risk: string,
    status: string,
    change: string,
    logo: string)

  /** `{ success, protocols, count, error? }`; `error` is absent on success. */
  datatype ProtocolsResponse = ProtocolsResponse(
    success: bool,
    protocols: seq<Protocol>,
    count: int,
    error: Option<string>)
}
