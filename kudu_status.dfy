/** The subset of kudu::Status codes the modelled C++ code returns. */
module KuduStatus {

  datatype Status =
    | InvalidArgument(msg: string)
    | NotFound(msg: string)
    | IllegalState(msg: string)
    | RuntimeError(msg: string)
}
