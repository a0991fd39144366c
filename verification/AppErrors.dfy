/** The errors an RPC call can end in (`src/error.rs`), and the two ways they are classified:
    worth retrying (`src/rpc/retry.rs`) and counted by the circuit breaker
    (`src/rpc/circuit_breaker.rs`). */
module AppErrors {
  import opened Wrappers

  datatype AppError =
    | Http(isConnect: bool, isTimeout: bool, isRequest: bool)
    | HttpStatus(status: nat, retryAfter: Option<nat>)
    | RpcUnavailable(gatewayStatus: nat)
    | ConnectTimeout(seconds: nat)
    | Rpc(code: int, retryable: Option<bool>)
    | TotalTimeout(timeoutMs: nat)
    | Other(message: string)

  predicate IsTransportFailure(e: AppError) {
    match e
    case Http(isConnect, isTimeout, isRequest) => isConnect || isTimeout || isRequest
    case ConnectTimeout(_) => true
    case RpcUnavailable(_) => true
    case HttpStatus(status, _) => 502 <= status <= 504
    case _ => false
  }

  predicate IsRetryableRpcError(code: int, retryable: Option<bool>) {
    match retryable
    case Some(answer) => answer
    case None => code == -32603 || -32099 <= code <= -32000
  }

  /** The breaker counts what never reached the endpoint, what ran out of time on the way, and the three
      answers of a gateway that could not reach it; nothing the endpoint itself answered. */
  lemma CountedErrorsAre(isConnect: bool, isTimeout: bool, isRequest: bool, status: nat, retryAfter: Option<nat>)
    ensures !IsTransportFailure(Http(isConnect, isTimeout, isRequest)) <==> !isConnect && !isTimeout && !isRequest
    ensures IsTransportFailure(HttpStatus(status, retryAfter)) <==> status == 502 || status == 503 || status == 504
    ensures forall e: AppError :: e.ConnectTimeout? || e.RpcUnavailable? ==> IsTransportFailure(e)
    ensures forall e: AppError :: e.Rpc? || e.TotalTimeout? || e.Other? ==> !IsTransportFailure(e)
  {
  }

  /** What the endpoint says of its own error decides; if it says nothing, exactly the internal error and
      the hundred codes reserved for servers are retried. */
  lemma RpcErrorsRetried(code: int)
    ensures forall answer :: IsRetryableRpcError(code, Some(answer)) == answer
    ensures IsRetryableRpcError(code, None) <==> code == -32603 || 0 <= -32000 - code < 100
  {
  }

  predicate IsRetryable(e: AppError) {
    match e
    case Http(isConnect, isTimeout, isRequest) => isConnect || isTimeout || isRequest
    case HttpStatus(status, _) => status in {429, 500, 502, 503, 504}
    case RpcUnavailable(_) => true
    case ConnectTimeout(_) => true
    case Rpc(code, retryable) => IsRetryableRpcError(code, retryable)
    case _ => false
  }

  /** Everything the breaker counts is retried; the retries it does not count are exactly rate
      limiting, plain 500s, and errors the endpoint itself reported. */
  lemma TransportFailuresAreRetryable(e: AppError)
    ensures IsTransportFailure(e) ==> IsRetryable(e)
    ensures IsRetryable(e) && !IsTransportFailure(e) <==>
              || (e.HttpStatus? && (e.status == 429 || e.status == 500))
              || (e.Rpc? && IsRetryableRpcError(e.code, e.retryable))
  {
  }
}
