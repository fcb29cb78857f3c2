// What a caller of deflate asks for, and what a compression function answers.
module DeflateModes {

  datatype Flush = NoFlush | PartialFlush | SyncFlush | FullFlush | Finish | BlockFlush

  datatype BlockState = NeedMore | BlockDone | FinishStarted | FinishDone

  predicate Flushes(flush: Flush) {
    flush != NoFlush && flush != Finish
  }
}
