/** The records the collector decodes and stores (internal/telemetry/models.go). */
module Models {
  import opened Wrappers

  datatype Gpu = Gpu(uuid: string, gpuIndex: string, device: string, hostname: string)

  /** Timestamps are instants; metric stands for the fields that storage only carries along. */
  datatype Telemetry = Telemetry(timestamp: int, uuid: string, gpuIndex: string, device: string,
                                 hostname: string, metric: string, value: real)

  /** What JSON decoding makes of a payload; an empty payload does not decode. */
  type Decoder = d: seq<Byte> -> Option<Telemetry> | d([]) == None witness (_ => None)
}
