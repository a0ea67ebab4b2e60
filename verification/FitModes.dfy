/** How an allocator chooses among the free blocks that can hold a request. */
module FitModes {

  datatype FitMode = FirstFit | BestFit | WorstFit
}
