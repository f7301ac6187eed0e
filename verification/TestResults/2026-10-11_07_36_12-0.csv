TestResult.DisplayName,TestResult.Outcome,TestResult.Duration,TestResult.ResourceCount,RandomSeed
Mesh.BlockTrisWinding (correctness),Passed,00:00:00.1659785,121786,0
