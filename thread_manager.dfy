/** ThreadManager (thread_manager.cpp): owns the producer list and splits the
    dictionary between producers the way launchProducerThreads does, by moving a
    [begin, end) window forward one slice at a time. Starting, stopping and
    joining threads is left out; a producer is represented by its slice. */
module ThreadManagers {
  import opened Partition

  class ThreadManager {
    /** The dictionary the producers read. */
    const dictionary: seq<string>
    /** m_producers: the slice of each launched producer, in launch order. */
    var producers: seq<Slice>

    constructor (dictionary: seq<string>)
      ensures this.dictionary == dictionary && producers == []
    {
      this.dictionary := dictionary;
      producers := [];
    }

    /** launchProducers: one producer per slice, the last one running to the end. */
    method LaunchProducers(hardwareConcurrency: nat)
      modifies this`producers
      ensures producers == old(producers) + Slices(|dictionary|, ThreadCount(hardwareConcurrency))
    {
      var n := ThreadCount(hardwareConcurrency);
      var wordsPerThread := |dictionary| / n;
      var begin := 0;
      var end := wordsPerThread;
      if wordsPerThread > 0 {
        var i := 0;
        while i < n - 1
          invariant 0 <= i <= n - 1
          invariant begin == wordsPerThread * i && end == wordsPerThread * (i + 1)
          invariant producers == old(producers) + EqualSlices(wordsPerThread, i)
        {
          producers := producers + [Slice(begin, end)];
          MulStep(wordsPerThread, i + 1);
          begin := begin + wordsPerThread;
          end := end + wordsPerThread;
          i := i + 1;
        }
      }
      producers := producers + [Slice(begin, |dictionary|)];
    }
  }
}
