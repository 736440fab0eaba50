/** The sizes of the Ethernet driver's DMA buffers and frames. */
module EthernetBuffers {
  const BUFFER_SIZE := 1536
  const MIN_FRAME := 60
}
